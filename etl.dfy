/**
  The transform stage as the pipeline runs it: one mutable data frame that
  is filtered and re-indexed, then has its issue_date and issue_time
  columns overwritten in place.
 */
module Etl {
  import opened Wrappers
  import opened TimeFields
  import opened Citations

  /** The in-memory table the pipeline works on, one row per citation. */
  class CitationFrame {
    var rows: seq<Row>

    /** `pd.DataFrame.from_records(results)` */
    constructor FromRecords(records: seq<Row>)
      ensures rows == records
    {
      rows := records;
    }

    /**
      `df = df[pd.notna(df.violation_description)].reset_index(drop=True)`.
      Without a violation_description column the lookup raises and the frame
      is left as it was.
     */
    method DropUndescribed() returns (outcome: Outcome<TransformError>)
      modifies this
      ensures outcome.Pass? <==> HasDescriptionColumn(old(rows))
      ensures outcome.Fail? ==> outcome.error == MissingColumn(DescriptionColumn) && rows == old(rows)
      ensures outcome.Pass? ==> rows == KeepDescribed(old(rows))
    {
      if !HasDescriptionColumn(rows) {
        return Fail(MissingColumn(DescriptionColumn));
      }
      rows := KeepDescribed(rows);
      outcome := Pass;
    }

    /** `df['issue_date'] = [datetime[0:10] for datetime in df.issue_date]` */
    method TruncateIssueDates()
      modifies this
      ensures rows == WithIssueDates(old(rows), TruncatedDates(old(rows)))
    {
      var column: seq<string> := [];
      for i := 0 to |rows|
        invariant |column| == i
        invariant forall k :: 0 <= k < i ==> column[k] == TruncateDate(rows[k].issueDate)
      {
        column := column + [TruncateDate(rows[i].issueDate)];
      }
      rows := WithIssueDates(rows, column);
    }

    /** `df['issue_time'] = [parse_time(time) for time in df.issue_time]` */
    method ReformatIssueTimes()
      modifies this
      ensures rows == WithIssueTimes(old(rows), FormattedTimes(old(rows)))
    {
      var column: seq<string> := [];
      for i := 0 to |rows|
        invariant |column| == i
        invariant forall k :: 0 <= k < i ==> column[k] == ParseTime(rows[k].issueTime)
      {
        column := column + [ParseTime(rows[i].issueTime)];
      }
      rows := WithIssueTimes(rows, column);
    }
  }

  /**
    The transform step of `main` on the fetched records: build the frame,
    filter it, rewrite the two columns, and hand the rows on. The result is
    the transform's specification; it fails exactly when there is no
    description column, and otherwise keeps one row per described record,
    each described and with only its date and time rewritten.
   */
  method TransformCitations(records: seq<Row>) returns (result: Result<seq<Row>, TransformError>)
    ensures result == TransformTable(records)
    ensures result.Ok? <==> HasDescriptionColumn(records)
    ensures result.Ok? ==>
      && |result.value| == |DescribedPositions(records)| == |KeptPositions(records)|
      && forall k :: 0 <= k < |result.value| ==>
           && Described(result.value[k])
           && RewrittenFrom(result.value[k], records[KeptPositions(records)[k]])
  {
    TransformTableSpec(records);
    var frame := new CitationFrame.FromRecords(records);
    var outcome := frame.DropUndescribed();
    if outcome.Fail? {
      return Err(outcome.error);
    }
    frame.TruncateIssueDates();
    frame.ReformatIssueTimes();
    result := Ok(frame.rows);
  }
}
