/** The DataFrame the ETL script cleans, and the column steps of etl.py:
    transformation_dates, transformation_encoding, transformation_gender and transform.
    Each step reads one column, maps a rule over it and assigns the result back to the
    same column of the same DataFrame (df[col] = ...), so the caller's object changes. */
module Frame {
  import opened Results
  import opened Cleaning
  import opened Dates

  /** Column name to the column's cells, top row first. */
  type Columns = map<string, seq<string>>

  /** pd.to_datetime applied to a whole column: it infers one format from the column
      and either yields a date per cell or raises (None). */
  type DateParser = seq<string> -> Option<seq<Date>>

  /** What the model assumes of pandas' parser: a result has one valid date per cell. */
  ghost predicate IsDateParser(parse: DateParser)
  {
    forall column :: parse(column).Some? ==>
      |parse(column).value| == |column| &&
      forall i :: 0 <= i < |column| ==> IsValidDate(parse(column).value[i])
  }

  /** Every column other than `col` is as it was. */
  predicate OthersUnchanged(before: Columns, after: Columns, col: string)
  {
    forall n :: n in before && n != col ==> n in after && after[n] == before[n]
  }

  // ---------------------------------------------------------------- per-column rules

  /** df[col].apply(encoding_transformation): the repaired column, or the error of the
      first cell (from the top) that cannot be repaired. */
  function RepairColumn(c: seq<string>): (r: Result<seq<string>>)
    ensures r.Ok? <==> forall i :: 0 <= i < |c| ==> RepairEncoding(c[i]).Ok?
    ensures r.Ok? ==> |r.value| == |c| && forall i :: 0 <= i < |c| ==> r.value[i] == RepairEncoding(c[i]).value
  {
    if c == [] then Ok([])
    else match RepairEncoding(c[0])
      case Err(e) => Err(e)
      case Ok(v) =>
        match RepairColumn(c[1..])
        case Err(e) => Err(e)
        case Ok(rest) => Ok([v] + rest)
  }

  /** When the column fails, it fails with the error of its first failing cell from the
      top, as pandas raises the exception of the first cell it cannot transform. */
  lemma {:induction false} RepairColumnFirstError(c: seq<string>)
    requires RepairColumn(c).Err?
    ensures exists k :: 0 <= k < |c| && RepairEncoding(c[k]) == Err(RepairColumn(c).error) &&
                        forall j :: 0 <= j < k ==> RepairEncoding(c[j]).Ok?
  {
    if RepairEncoding(c[0]).Err? {
      assert RepairEncoding(c[0]) == Err(RepairColumn(c).error);
    } else {
      RepairColumnFirstError(c[1..]);
      var k :| 0 <= k < |c| - 1 && RepairEncoding(c[1..][k]) == Err(RepairColumn(c[1..]).error) &&
               forall j :: 0 <= j < k ==> RepairEncoding(c[1..][j]).Ok?;
      assert RepairEncoding(c[k + 1]) == Err(RepairColumn(c).error);
      assert forall j :: 0 <= j < k + 1 ==> RepairEncoding(c[j]).Ok? by {
        forall j | 0 <= j < k + 1 ensures RepairEncoding(c[j]).Ok? {
          if j > 0 { assert c[j] == c[1..][j - 1]; }
        }
      }
    }
  }

  // ---------------------------------------------------------------- the three steps

  /** transformation_gender(df, col) on the column map. */
  function ApplyGender(cols: Columns, col: string): (r: Result<Columns>)
    ensures r.Err? <==> col !in cols
    ensures r.Err? ==> r.error == MissingColumn(col)
    ensures r.Ok? ==> r.value.Keys == cols.Keys && OthersUnchanged(cols, r.value, col)
    ensures r.Ok? ==> (|r.value[col]| == |cols[col]| &&
      forall i :: 0 <= i < |cols[col]| ==> r.value[col][i] == NormalizeGender(cols[col][i]))
  {
    if col !in cols then Err(MissingColumn(col))
    else
      var c := cols[col];
      Ok(cols[col := seq(|c|, i requires 0 <= i < |c| => NormalizeGender(c[i]))])
  }

  /** transformation_encoding(df, col) on the column map: fails when the column is
      missing or when some cell cannot be repaired. */
  function ApplyRepair(cols: Columns, col: string): (r: Result<Columns>)
    ensures col !in cols ==> r == Err(MissingColumn(col))
    ensures col in cols ==> (r.Ok? <==> forall i :: 0 <= i < |cols[col]| ==> RepairEncoding(cols[col][i]).Ok?)
    ensures col in cols && r.Err? ==>
      exists k :: 0 <= k < |cols[col]| && RepairEncoding(cols[col][k]) == Err(r.error) &&
                  forall j :: 0 <= j < k ==> RepairEncoding(cols[col][j]).Ok?
    ensures r.Ok? ==> r.value.Keys == cols.Keys && OthersUnchanged(cols, r.value, col)
    ensures r.Ok? ==> (|r.value[col]| == |cols[col]| &&
      forall i :: 0 <= i < |cols[col]| ==> Ok(r.value[col][i]) == RepairEncoding(cols[col][i]))
  {
    if col !in cols then Err(MissingColumn(col))
    else
      match RepairColumn(cols[col])
      case Err(e) =>
        RepairColumnFirstError(cols[col]);
        Err(e)
      case Ok(c) => Ok(cols[col := c])
  }

  /** transformation_dates(df, col) on the column map: parse the column, then render
      every date as 'YYYY-MM-DD'. Each new cell reads back as the date parsed from the
      old column at the same row. */
  function ApplyDates(cols: Columns, col: string, parse: DateParser): (r: Result<Columns>)
    requires IsDateParser(parse)
    ensures col !in cols ==> r == Err(MissingColumn(col))
    ensures col in cols ==> (r.Ok? <==> parse(cols[col]).Some?)
    ensures col in cols && r.Err? ==> r.error == DateParseError
    ensures r.Ok? ==> r.value.Keys == cols.Keys && OthersUnchanged(cols, r.value, col)
    ensures r.Ok? ==> (|r.value[col]| == |cols[col]| &&
      forall i :: 0 <= i < |cols[col]| ==> ParseIsoDate(r.value[col][i]) == Some(parse(cols[col]).value[i]))
  {
    if col !in cols then Err(MissingColumn(col))
    else
      match parse(cols[col])
      case None => Err(DateParseError)
      case Some(dates) =>
        var c := seq(|dates|, i requires 0 <= i < |dates| => FormatDate(dates[i]));
        assert forall i :: 0 <= i < |dates| ==> ParseIsoDate(c[i]) == Some(dates[i]) by {
          forall i | 0 <= i < |dates| ensures ParseIsoDate(c[i]) == Some(dates[i]) {
            ParseFormattedDate(dates[i]);
          }
        }
        Ok(cols[col := c])
  }

  /** A column that already holds the "%Y-%m-%d" text of the dates it is read as is
      left as it is: reformatting dates is idempotent. */
  lemma FormattedColumnIsKept(cols: Columns, col: string, parse: DateParser)
    requires IsDateParser(parse)
    requires col in cols && parse(cols[col]).Some?
    requires var ds := parse(cols[col]).value;
      |cols[col]| == |ds| && forall i :: 0 <= i < |ds| ==> cols[col][i] == FormatDate(ds[i])
    ensures ApplyDates(cols, col, parse) == Ok(cols)
  {
    var ds := parse(cols[col]).value;
    var c := seq(|ds|, i requires 0 <= i < |ds| => FormatDate(ds[i]));
    assert c == cols[col];
    assert cols[col := c] == cols;
  }

  // ---------------------------------------------------------------- the DataFrame

  const DateColumn := "day_of_birthday"
  const StateColumn := "state"
  const GenderColumn := "gender"

  class DataFrame {
    /** The cells, column by column. */
    var columns: Columns
    /** The number of rows. */
    var rows: nat

    /** Every column has one cell per row. */
    ghost predicate Valid()
      reads this
    {
      forall n :: n in columns ==> |columns[n]| == rows
    }

    constructor (columns: Columns, rows: nat)
      requires forall n :: n in columns ==> |columns[n]| == rows
      ensures Valid() && this.columns == columns && this.rows == rows
    {
      this.columns := columns;
      this.rows := rows;
    }

    /** transformation_gender(df, col): on success the column holds the gender labels;
        on a missing column (KeyError) nothing changes. */
    method TransformGender(col: string) returns (outcome: Outcome)
      requires Valid()
      modifies this
      ensures Valid() && rows == old(rows)
      ensures match ApplyGender(old(columns), col)
        case Ok(m) => outcome == Pass && columns == m
        case Err(e) => outcome == Fail(e) && columns == old(columns)
    {
      match ApplyGender(columns, col)
      case Ok(m) => columns := m; outcome := Pass;
      case Err(e) => outcome := Fail(e);
    }

    /** transformation_encoding(df, col): apply raises before the assignment, so a
        failing cell leaves the DataFrame as it was. */
    method TransformEncoding(col: string) returns (outcome: Outcome)
      requires Valid()
      modifies this
      ensures Valid() && rows == old(rows)
      ensures match ApplyRepair(old(columns), col)
        case Ok(m) => outcome == Pass && columns == m
        case Err(e) => outcome == Fail(e) && columns == old(columns)
    {
      match ApplyRepair(columns, col)
      case Ok(m) => columns := m; outcome := Pass;
      case Err(e) => outcome := Fail(e);
    }

    /** transformation_dates(df, col): pd.to_datetime raises before the first
        assignment, so an unparseable column leaves the DataFrame as it was. */
    method TransformDates(col: string, parse: DateParser) returns (outcome: Outcome)
      requires Valid() && IsDateParser(parse)
      modifies this
      ensures Valid() && rows == old(rows)
      ensures match ApplyDates(old(columns), col, parse)
        case Ok(m) => outcome == Pass && columns == m
        case Err(e) => outcome == Fail(e) && columns == old(columns)
    {
      match ApplyDates(columns, col, parse)
      case Ok(m) => columns := m; outcome := Pass;
      case Err(e) => outcome := Fail(e);
    }

    /** transform(df): dates on day_of_birthday, then encoding on state, then gender on
        gender, all on this same DataFrame. The first failure stops the chain, and the
        steps before it have already rewritten their columns. */
    method Transform(parse: DateParser) returns (outcome: Outcome)
      requires Valid() && IsDateParser(parse)
      modifies this
      ensures Valid() && rows == old(rows)
      ensures match ApplyDates(old(columns), DateColumn, parse)
        case Err(e) => outcome == Fail(e) && columns == old(columns)
        case Ok(m1) =>
          match ApplyRepair(m1, StateColumn)
          case Err(e) => outcome == Fail(e) && columns == m1
          case Ok(m2) =>
            match ApplyGender(m2, GenderColumn)
            case Err(e) => outcome == Fail(e) && columns == m2
            case Ok(m3) => outcome == Pass && columns == m3
    {
      outcome := TransformDates(DateColumn, parse);
      if outcome.Fail? { return; }
      outcome := TransformEncoding(StateColumn);
      if outcome.Fail? { return; }
      outcome := TransformGender(GenderColumn);
    }
  }

  /** The one-row scenario, step by step: a row ("2021-05-03", "ArizÃ³na", "1") comes
      out as ("2021-05-03", "Arizona", "Male"), given a parser that reads the date
      column as 3 May 2021. First the date column re-renders to the same text, */
  lemma ExampleDatesStep(parse: DateParser)
    requires IsDateParser(parse)
    requires parse(["2021-05-03"]) == Some([Date(2021, 5, 3)])
    ensures ApplyDates(ExampleInput(), DateColumn, parse) == Ok(ExampleInput())
  {
    var c0 := ExampleInput();
    var d := Date(2021, 5, 3);
    assert c0[DateColumn] == ["2021-05-03"];
    assert parse(c0[DateColumn]) == Some([d]);
    FormatExample();
    assert c0[DateColumn][0] == FormatDate(d);
    FormattedColumnIsKept(c0, DateColumn, parse);
  }

  /** then the state is repaired, */
  lemma ExampleEncodingStep()
    ensures ApplyRepair(ExampleInput(), StateColumn) == Ok(ExampleInput()[StateColumn := ["Arizona"]])
  {
    RepairArizona();
    var m2 := ApplyRepair(ExampleInput(), StateColumn).value;
    assert m2[StateColumn] == ["Arizona"];
  }

  /** and the gender code becomes its label. */
  lemma ExampleGenderStep()
    ensures ApplyGender(ExampleInput()[StateColumn := ["Arizona"]], GenderColumn) == Ok(ExampleOutput())
  {
    GenderRecognisedExamples();
    var m3 := ApplyGender(ExampleInput()[StateColumn := ["Arizona"]], GenderColumn).value;
    assert m3[GenderColumn] == ["Male"];
    assert m3[DateColumn] == ["2021-05-03"] && m3[StateColumn] == ["Arizona"];
    assert m3 == ExampleOutput();
  }

  function ExampleInput(): Columns
  {
    map[DateColumn := ["2021-05-03"], StateColumn := ["Ariz\U{C3}\U{B3}na"], GenderColumn := ["1"]]
  }

  function ExampleOutput(): Columns
  {
    map[DateColumn := ["2021-05-03"], StateColumn := ["Arizona"], GenderColumn := ["Male"]]
  }

  /** The same scenario run through a DataFrame, as a caller of transform sees it. */
  method EndToEndExample(parse: DateParser) returns (outcome: Outcome, result: Columns)
    requires IsDateParser(parse)
    requires parse(["2021-05-03"]) == Some([Date(2021, 5, 3)])
    ensures outcome == Pass && result == ExampleOutput()
  {
    var df := new DataFrame(ExampleInput(), 1);
    ExampleDatesStep(parse);
    ExampleEncodingStep();
    ExampleGenderStep();
    outcome := df.Transform(parse);
    result := df.columns;
  }
}
