/**
 * What `load_data` promises, stated over the functions that specify its
 * three steps.
 */
module LoadProperties {
  import opened CellText
  import opened Loader

  // ---------------------------------------------------------------------------
  // Step 1: encoding fallback

  /**
   * The first-pass table is the CSV read with encoding number `k` exactly when
   * that read parses and every encoding listed before it was rejected.
   */
  lemma CsvReadIsFirstSuccess(f: Upload, k: nat, rows: Table)
    requires k < |Encodings|
    ensures FirstPass(f) == Read(Csv(Encodings[k]), rows) <==>
      f.csv(Encodings[k]) == Parsed(rows) && forall j: nat | j < k :: RejectedAt(f, j)
  {
  }

  /**
   * Encodings after the first one that parses are never handed to the
   * parser, and nothing after an uncaught exception is either.
   */
  lemma LaterEncodingsNotTried(f: Upload, k: nat)
    requires k < |Encodings|
    requires !RejectedAt(f, k)
    ensures StopAt(f, 0) <= k
    ensures forall j: nat | j < StopAt(f, 0) :: RejectedAt(f, j)
  {
  }

  /**
   * The Excel reader supplies the first-pass table exactly when all three
   * CSV reads were rejected and the Excel read succeeds; when it fails too,
   * nothing is read.
   */
  lemma ExcelOnlyAfterEveryCsvRejected(f: Upload)
    ensures (FirstPass(f).Read? && FirstPass(f).source == Excel) <==>
      AllCsvRejected(f) && f.excel.Some?
    ensures FirstPass(f) == Unreadable <==> AllCsvRejected(f) && f.excel == None
    ensures FirstPass(f).Read? && FirstPass(f).source == Excel ==> FirstPass(f).rows == f.excel.value
  {
    if AllCsvRejected(f) {
      assert RejectedAt(f, |Encodings| - 1);
    }
  }

  /**
   * An exception other than a decoding or parsing error leaves `load_data`
   * at the encoding that raised it, after every earlier one was rejected.
   */
  lemma EscapedOnlyFromRaisingEncoding(f: Upload, k: nat)
    requires k < |Encodings|
    ensures FirstPass(f) == Escaped(Encodings[k]) <==>
      f.csv(Encodings[k]) == Raised && forall j: nat | j < k :: RejectedAt(f, j)
  {
  }

  // ---------------------------------------------------------------------------
  // Outcomes of the whole function

  /** `None` for an unreadable file, and then no header scan is done. */
  lemma NotReadIffNothingParses(f: Upload)
    ensures Load(f) == NotRead <==> AllCsvRejected(f) && f.excel == None
  {
    ExcelOnlyAfterEveryCsvRejected(f);
  }

  /**
   * A header found at data row `h` of the first pass is asked for as file
   * line `h + 1`: line 0 already held the first pass's column names, is
   * never scanned and is never chosen.
   */
  lemma HeaderLineIsFirstQualifyingRowPlusOne(f: Upload)
    requires Load(f).WithHeader?
    ensures FirstPass(f).Read?
    ensures 1 <= Load(f).headerLine <= |FirstPass(f).rows|
    ensures RowMentionsDate(FirstPass(f).rows[Load(f).headerLine - 1])
    ensures forall j: nat | j < Load(f).headerLine - 1 :: !RowMentionsDate(FirstPass(f).rows[j])
    ensures f.reread(Load(f).enc, Load(f).headerLine) == Some(Load(f).table)
  {
  }

  /**
   * An exception other than a decoding or parsing error ends `load_data`
   * itself, at the encoding that raised it.
   */
  lemma UncaughtIffRaised(f: Upload, k: nat)
    requires k < |Encodings|
    ensures Load(f) == Uncaught(Encodings[k]) <==>
      f.csv(Encodings[k]) == Raised && forall j: nat | j < k :: RejectedAt(f, j)
  {
  }

  /**
   * Conversely, a qualifying row whose re-read succeeds gives that re-read's
   * table, asked for with the loop's encoding and the row's index plus one.
   */
  lemma FoundHeaderIsReread(f: Upload, t: Table)
    requires FirstPass(f).Read?
    requires HeaderFrom(FirstPass(f).rows, 0) != -1
    requires f.reread(LastTried(f), HeaderFrom(FirstPass(f).rows, 0) + 1) == Some(t)
    ensures Load(f) == WithHeader(LastTried(f), HeaderFrom(FirstPass(f).rows, 0) + 1, t)
  {
  }

  /**
   * Without a qualifying row the first-pass table is returned as it is, and
   * no second read happens.
   */
  lemma UnchangedIffNoQualifyingRow(f: Upload)
    ensures Load(f).Unchanged? <==>
      FirstPass(f).Read? && forall j: nat | j < |FirstPass(f).rows| :: !RowMentionsDate(FirstPass(f).rows[j])
    ensures Load(f).Unchanged? ==>
      Load(f) == Unchanged(FirstPass(f).source, FirstPass(f).rows)
  {
  }

  /**
   * The second read uses the encoding the loop stopped on: the one whose
   * first read parsed, or `cp1252` (the last listed) when the first-pass
   * table came from the Excel reader.
   */
  lemma RereadUsesLoopEncoding(f: Upload)
    requires Load(f).WithHeader?
    ensures FirstPass(f).source.Csv? ==> Load(f).enc == FirstPass(f).source.enc
    ensures FirstPass(f).source.Excel? ==> Load(f).enc == Cp1252
  {
  }

  /**
   * A second read that raises gives `None`, never part of a table; it is
   * the only way a found header leads to no table.
   */
  lemma ReparseFailedIffRereadRaises(f: Upload)
    ensures Load(f) == ReparseFailed <==>
      FirstPass(f).Read? && HeaderFrom(FirstPass(f).rows, 0) != -1 &&
      f.reread(LastTried(f), HeaderFrom(FirstPass(f).rows, 0) + 1) == None
  {
  }

  // ---------------------------------------------------------------------------
  // A bank export whose column names sit under some lines of account details

  /**
   * First-pass data rows of a UTF-8 export: file line 0 became the column
   * names, lines 1 to 5 are account details and line 6 holds the real
   * column names (line numbers not counting blank lines, which the reader
   * skips). The reader gives every row the width of line 0 and turns
   * a missing cell into "nan", so this table is what it yields when line 0
   * has four fields; a wider later line would be a `ParserError` instead.
   */
  function BankExport(): Table
  {
    [ ["Account No", "5010", "nan", "nan"],
      ["Customer", "A. Kumar", "nan", "nan"],
      ["Month", "Jan 2024", "nan", "nan"],
      ["Currency", "INR", "nan", "nan"],
      ["Branch", "Central", "nan", "nan"],
      ["Date", "Narration", "Withdrawal Amt.", "Deposit Amt."],
      ["05/01/24", "NEFT", "nan", "5000"] ]
  }

  /** The real column names, on file line 6, are found and asked for. */
  lemma BuriedHeaderIsFound(f: Upload, t: Table)
    requires f.csv(Utf8) == Parsed(BankExport())
    requires f.reread(Utf8, 6) == Some(t)
    ensures Load(f) == WithHeader(Utf8, 6, t)
  {
    var rows := BankExport();
    assert !RejectedAt(f, 0);
    assert StopAt(f, 0) == 0;
    forall j: nat, c: nat | j < 5 && c < |rows[j]|
      ensures !MentionsDate(rows[j][c])
    {
      NoLetterDNoMention(rows[j][c]);
    }
    assert OccursAt(ToLower(rows[5][0]), Keyword, 0);
    assert RowMentionsDate(rows[5]);
    assert HeaderFrom(rows, 0) == 5;
  }
}
