/**
 * parse_callsum: a tab-separated call summary, read as lines, becomes a map
 * from reference id (column 0 of each data row) to that row's raw call record.
 */
module Summary {
  import opened Wrappers
  import opened PyStr

  /** A line split on tabs; `str.split` never gives an empty list. */
  type Row = r: seq<string> | |r| > 0 witness [""]

  /** A raw call record: header name to the row's value in that column. */
  type RawRecord = map<string, string>

  /** Reference id to raw call record. */
  type Summaries = map<string, RawRecord>

  /** The exceptions parse_callsum lets escape, with the key column of the offending row. */
  datatype ParseError =
    | ShortRow(key: string)                               // IndexError in `l[header.index(h)]`
    | MissingCall(key: string)                            // KeyError in `tmp['call']`
    | FixableWithoutColon(call: string)                   // IndexError in `split(':')[1]`
    | FixableParameterCount(call: string, count: nat)     // ValueError unpacking `p1,p2`

  const FixablePrefix := "Fixable"

  /** `l.strip('\n').split('\t')`. */
  function SplitRow(line: string): Row {
    Split(Strip(line, IsNewline), '\t')
  }

  /** Every line of the file, split. */
  function SplitRows(lines: seq<string>): seq<Row> {
    seq(|lines|, i requires 0 <= i < |lines| => SplitRow(lines[i]))
  }

  /** The names a record is keyed by: `header[1:]`. */
  function Columns(header: Row): set<string> {
    set h | h in header[1..]
  }

  /** The row is long enough for every column name's first position in the header. */
  predicate Covers(header: Row, row: Row) {
    forall h :: h in header[1..] ==> IndexOf(header, h) < |row|
  }

  /** `dict((h, l[header.index(h)]) for h in header[1:])`. */
  function Fields(header: Row, row: Row): RawRecord
    requires Covers(header, row)
  {
    map h | h in header[1..] :: row[IndexOf(header, h)]
  }

  // ---------------------------------------------------------------------------
  // the Fixable call

  /**
   * `call.split(':')[0]`, and `call.split(':')[1].split(',')` unpacked into
   * exactly two parameters.
   */
  function SplitFixable(call: string): Result<(string, string, string), ParseError> {
    var parts := Split(call, ':');
    if |parts| < 2 then Failure(FixableWithoutColon(call))
    else
      var params := Split(parts[1], ',');
      if |params| != 2 then Failure(FixableParameterCount(call, |params|))
      else Success((parts[0], params[0], params[1]))
  }

  /**
   * A call without `:` fails with the missing-colon error; every other
   * failure is a count of comma pieces other than two.
   */
  lemma SplitFixableErrors(call: string)
    ensures ':' !in call <==> SplitFixable(call) == Failure(FixableWithoutColon(call))
    ensures SplitFixable(call).Failure? ==>
      && SplitFixable(call).error.call == call
      && (SplitFixable(call).error.FixableWithoutColon? ||
          (SplitFixable(call).error.FixableParameterCount? && SplitFixable(call).error.count != 2))
  {
  }

  /**
   * What a successful decomposition means: the call is the category, a colon,
   * the two parameters separated by a comma, and then nothing or a further
   * colon-separated tail, which is ignored.
   */
  lemma FixableDecomposes(call: string)
    requires SplitFixable(call).Success?
    ensures var (cat, p1, p2) := SplitFixable(call).value;
      && ':' !in cat && ':' !in p1 && ':' !in p2 && ',' !in p1 && ',' !in p2
      && |cat| + |p1| + |p2| + 2 <= |call|
      && call == cat + [':'] + p1 + [','] + p2 + call[|cat| + |p1| + |p2| + 2..]
      && (|cat| + |p1| + |p2| + 2 < |call| ==> call[|cat| + |p1| + |p2| + 2] == ':')
  {
    var parts := Split(call, ':');
    var params := Split(parts[1], ',');
    var (cat, p1, p2) := (parts[0], params[0], params[1]);
    assert ':' !in parts[1];
    assert SplitFixable(call) == Success((cat, p1, p2));
    SplitFront(call, ':');
    SplitFront(parts[1], ',');
    var n := |cat| + |p1| + |p2| + 2;
    assert parts[1] == p1 + [','] + p2;
    assert call == cat + [':'] + parts[1] + call[n..];
    ConcatRegroup(call, cat + [':'], parts[1], call[n..], p1, [','], p2);
  }

  /** The converse: a call of that form decomposes into its category and parameters. */
  lemma FixableRoundTrip(cat: string, p1: string, p2: string, tail: string)
    requires ':' !in cat && ':' !in p1 && ':' !in p2 && ',' !in p1 && ',' !in p2
    requires tail == [] || tail[0] == ':'
    ensures SplitFixable(cat + [':'] + p1 + [','] + p2 + tail) == Success((cat, p1, p2))
  {
    var call := cat + [':'] + p1 + [','] + p2 + tail;
    var params := p1 + [','] + p2;
    var rest := params + tail;
    assert call == cat + [':'] + rest;
    SplitAfterPiece(cat, rest, ':');
    var parts := Split(call, ':');
    assert parts == [cat] + Split(rest, ':');
    FirstPieceOfTail(params, tail);
    assert parts[1] == params;
    SplitAfterPiece(p1, p2, ',');
    SplitNoSeparator(p2, ',');
    assert Split(params, ',') == [p1, p2];
  }

  /** A colon-free string followed by nothing or a `:`-led tail is the first `:` piece. */
  lemma FirstPieceOfTail(params: string, tail: string)
    requires ':' !in params
    requires tail == [] || tail[0] == ':'
    ensures Split(params + tail, ':')[0] == params
  {
    if tail == [] {
      assert params + tail == params;
      SplitNoSeparator(params, ':');
    } else {
      assert params + tail == params + [':'] + tail[1..];
      SplitAfterPiece(params, tail[1..], ':');
    }
  }

  // ---------------------------------------------------------------------------
  // one data row

  /** The raw value of the row's `call` column, before any Fixable decomposition. */
  function RawCall(header: Row, row: Row): string
    requires Covers(header, row) && "call" in Columns(header)
  {
    row[IndexOf(header, "call")]
  }

  /** What a record parsed from `row` under `header` holds. */
  ghost predicate RecordOfRow(header: Row, row: Row, rec: RawRecord)
    requires Covers(header, row) && "call" in Columns(header)
  {
    var raw := RawCall(header, row);
    var fixable := StartsWith(raw, FixablePrefix);
    && rec.Keys == Columns(header) + (if fixable then {"p1", "p2"} else {})
    && (forall h :: h in Columns(header) && h != "call" && (fixable ==> h != "p1" && h != "p2") ==>
         rec[h] == row[IndexOf(header, h)])
    && (!fixable ==> rec["call"] == raw)
    && (fixable ==> SplitFixable(raw) == Success((rec["call"], rec["p1"], rec["p2"])))
  }

  /** Lines 11-16 for one data row `l`. */
  function RowRecord(header: Row, row: Row): Result<RawRecord, ParseError> {
    if !Covers(header, row) then Failure(ShortRow(row[0]))
    else
      var tmp := Fields(header, row);
      if "call" !in tmp then Failure(MissingCall(row[0]))
      else if !StartsWith(tmp["call"], FixablePrefix) then Success(tmp)
      else
        var (cat, p1, p2) :- SplitFixable(tmp["call"]);
        Success(tmp["p1" := p1]["p2" := p2]["call" := cat])
  }

  /**
   * A data row gives a record keyed by `header[1:]`, each value the row's
   * entry at the name's first position in the header, with a Fixable call
   * decomposed into `call`, `p1` and `p2`; it fails on a short row, on a
   * header without `call`, and on a malformed Fixable value.
   */
  lemma RowRecordMeaning(header: Row, row: Row)
    ensures !Covers(header, row) ==> RowRecord(header, row) == Failure(ShortRow(row[0]))
    ensures Covers(header, row) && "call" !in Columns(header) ==>
      RowRecord(header, row) == Failure(MissingCall(row[0]))
    ensures RowRecord(header, row).Success? <==>
      && Covers(header, row) && "call" in Columns(header)
      && (StartsWith(RawCall(header, row), FixablePrefix) ==> SplitFixable(RawCall(header, row)).Success?)
    ensures RowRecord(header, row).Success? ==> RecordOfRow(header, row, RowRecord(header, row).value)
  {
  }

  // ---------------------------------------------------------------------------
  // the whole file

  /** How each data row becomes a record (lines 11-16), under a fixed header. */
  type RowParse = Row -> Result<RawRecord, ParseError>

  function RowParser(header: Row): RowParse {
    (row: Row) => RowRecord(header, row)
  }

  /**
   * The `summaries` dict after the loop of lines 10-17 has run over `rows`,
   * each row parsed by `parse`. The lemmas below hold for any row parser.
   */
  function ParseRows(parse: RowParse, rows: seq<Row>): Result<Summaries, ParseError>
    decreases |rows|
  {
    if rows == [] then Success(map[])
    else
      var summaries :- ParseRows(parse, rows[..|rows| - 1]);
      var l := rows[|rows| - 1];
      var tmp :- parse(l);
      Success(summaries[l[0] := tmp])
  }

  /** parse_callsum on the lines of a file: the first line is the header. */
  function CallSummary(lines: seq<string>): (r: Result<Summaries, ParseError>)
    ensures |lines| <= 1 ==> r == Success(map[])
  {
    var table := SplitRows(lines);
    if |table| > 0 then ParseRows(RowParser(table[0]), table[1..]) else Success(map[])
  }

  /** The parse succeeds exactly when every data row does. */
  lemma {:induction false} ParseRowsSucceeds(parse: RowParse, rows: seq<Row>)
    ensures ParseRows(parse, rows).Success? <==>
      forall i :: 0 <= i < |rows| ==> parse(rows[i]).Success?
    decreases |rows|
  {
    if rows != [] {
      var init := rows[..|rows| - 1];
      ParseRowsSucceeds(parse, init);
      assert forall i :: 0 <= i < |init| ==> init[i] == rows[i];
    }
  }

  /** A failed parse reports the error of the first row that fails. */
  lemma {:induction false} ParseRowsFirstError(parse: RowParse, rows: seq<Row>)
    requires ParseRows(parse, rows).Failure?
    ensures exists i :: (0 <= i < |rows| && parse(rows[i]) == Failure(ParseRows(parse, rows).error) &&
      forall j :: 0 <= j < i ==> parse(rows[j]).Success?)
    decreases |rows|
  {
    var init := rows[..|rows| - 1];
    var last := |rows| - 1;
    assert forall i :: 0 <= i < |init| ==> init[i] == rows[i];
    if ParseRows(parse, init).Failure? {
      ParseRowsFirstError(parse, init);
      var i :| 0 <= i < |init| && parse(init[i]) == Failure(ParseRows(parse, init).error)
        && forall j :: 0 <= j < i ==> parse(init[j]).Success?;
      assert parse(rows[i]) == Failure(ParseRows(parse, rows).error);
    } else {
      ParseRowsSucceeds(parse, init);
      assert parse(rows[last]) == Failure(ParseRows(parse, rows).error);
    }
  }

  /** The reference ids of a successful parse are exactly the data rows' column 0. */
  lemma {:induction false} ParseRowsKeys(parse: RowParse, rows: seq<Row>)
    requires ParseRows(parse, rows).Success?
    ensures ParseRows(parse, rows).value.Keys == set i | 0 <= i < |rows| :: rows[i][0]
    decreases |rows|
  {
    if rows != [] {
      var init := rows[..|rows| - 1];
      ParseRowsKeys(parse, init);
      assert forall i :: 0 <= i < |init| ==> init[i] == rows[i];
      assert (set i | 0 <= i < |rows| :: rows[i][0])
          == (set i | 0 <= i < |init| :: init[i][0]) + {rows[|rows| - 1][0]};
    }
  }

  /**
   * Each reference id is mapped to the record of the LAST row carrying it:
   * a later row with the same key overwrites an earlier one.
   */
  lemma {:induction false} ParseRowsLatest(parse: RowParse, rows: seq<Row>, i: nat)
    requires ParseRows(parse, rows).Success?
    requires i < |rows|
    requires forall j :: i < j < |rows| ==> rows[j][0] != rows[i][0]
    ensures parse(rows[i]).Success?
    ensures rows[i][0] in ParseRows(parse, rows).value
    ensures ParseRows(parse, rows).value[rows[i][0]] == parse(rows[i]).value
    decreases |rows|
  {
    var init := rows[..|rows| - 1];
    if i < |rows| - 1 {
      assert init[i] == rows[i];
      assert forall j :: i < j < |init| ==> init[j] == rows[j];
      ParseRowsLatest(parse, init, i);
    }
  }

  /** Once a prefix of the rows fails, the whole parse fails with the same error. */
  lemma {:induction false} ParseRowsPrefixFailure(parse: RowParse, rows: seq<Row>, k: nat)
    requires k <= |rows|
    requires ParseRows(parse, rows[..k]).Failure?
    ensures ParseRows(parse, rows) == ParseRows(parse, rows[..k])
    decreases |rows|
  {
    if k < |rows| {
      var init := rows[..|rows| - 1];
      assert init[..k] == rows[..k];
      ParseRowsPrefixFailure(parse, init, k);
    } else {
      assert rows[..k] == rows;
    }
  }

  /** One more row: stored under its key if it parses, else its error. */
  lemma ParseRowsAppend(parse: RowParse, rows: seq<Row>, l: Row)
    requires ParseRows(parse, rows).Success?
    ensures ParseRows(parse, rows + [l]) ==
      if parse(l).Success? then Success(ParseRows(parse, rows).value[l[0] := parse(l).value])
      else Failure(parse(l).error)
  {
    assert (rows + [l])[..|rows|] == rows;
  }

  /** parse_callsum (lines 4-18) over the already-read lines of the file. */
  method ParseCallsum(lines: seq<string>) returns (r: Result<Summaries, ParseError>)
    ensures r == CallSummary(lines)
  {
    var summaries: Summaries := map[];
    var table := SplitRows(lines);
    if |table| > 0 {
      var header := table[0];
      var parse := RowParser(header);
      var i := 1;
      while i < |table|
        invariant 1 <= i <= |table|
        invariant ParseRows(parse, table[1..i]) == Success(summaries)
      {
        var l := table[i];
        SliceExtend(table, 1, i);
        var tmp := parse(l);
        ParseRowsAppend(parse, table[1..i], l);
        if tmp.Failure? {
          SliceOfSuffix(table, 1, i);
          ParseRowsPrefixFailure(parse, table[1..], i);
          return Failure(tmp.error);
        }
        summaries := summaries[l[0] := tmp.value];
        i := i + 1;
      }
      SliceToEnd(table, 1);
    }
    return Success(summaries);
  }
}
