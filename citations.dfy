/**
  The citation table and the row-level transform applied to it: drop the
  rows without a violation description (and number the survivors from 0),
  then rewrite the issue_date and issue_time columns. A table is a sequence
  of rows; a row's position in it is its index in the data frame.
 */
module Citations {
  import opened Wrappers
  import opened PySlice
  import opened TimeFields

  /**
    One fetched citation record. Cells arrive from the open-data service as
    strings. The coordinates are carried through unchanged here, and
    `others` holds every remaining column by name.
   */
  datatype Row = Row(
    violationDescription: Cell,
    issueDate: string,
    issueTime: string,
    latitude: string,
    longitude: string,
    others: map<string, string>)

  /**
    The violation_description entry of a record: the record has no such key
    (Absent), has the key with a null value (Null), or has a text.
   */
  datatype Cell = Absent | Null | Text(value: string)

  /** Why the transform step aborts the run. */
  datatype TransformError = MissingColumn(name: string)

  const DescriptionColumn := "violation_description"

  /** `pd.notna(row.violation_description)` */
  predicate Described(row: Row)
    ensures Described(row) ==> !row.violationDescription.Absent?
  {
    row.violationDescription.Text?
  }

  /**
    The table has a violation_description column at all. A frame built from
    records has the union of their keys as columns, so the column exists
    exactly when some record has the key, even with a null value; an empty
    fetch has no columns.
   */
  predicate HasDescriptionColumn(rows: seq<Row>)
    ensures (exists i :: 0 <= i < |rows| && Described(rows[i])) ==> HasDescriptionColumn(rows)
  {
    exists i :: 0 <= i < |rows| && !rows[i].violationDescription.Absent?
  }

  /** The original positions of the described rows. */
  ghost function DescribedPositions(rows: seq<Row>): set<int>
  {
    set i | 0 <= i < |rows| && Described(rows[i])
  }

  /* ---------------------------------------------------------------------- */
  /* The null filter with re-indexing                                       */
  /* ---------------------------------------------------------------------- */

  /**
    `df[pd.notna(df.violation_description)].reset_index(drop=True)`: the
    described rows, in their original order, at positions 0, 1, 2, ...
   */
  function KeepDescribed(rows: seq<Row>): (kept: seq<Row>)
    ensures |kept| <= |rows|
    ensures forall k :: 0 <= k < |kept| ==> Described(kept[k])
    ensures forall row :: row in kept ==> row in rows
  {
    if rows == [] then []
    else if Described(rows[0]) then [rows[0]] + KeepDescribed(rows[1..])
    else KeepDescribed(rows[1..])
  }

  /** Every index of `positions` moved one place on. */
  function Shift(positions: seq<int>): (r: seq<int>)
    ensures |r| == |positions|
    ensures forall k :: 0 <= k < |r| ==> r[k] == positions[k] + 1
  {
    seq(|positions|, k requires 0 <= k < |positions| => positions[k] + 1)
  }

  /** The index in the input of each row the filter keeps, in output order. */
  function KeptPositions(rows: seq<Row>): (positions: seq<int>)
    ensures forall k :: 0 <= k < |positions| ==> 0 <= positions[k] < |rows|
    ensures forall k, l :: 0 <= k < l < |positions| ==> positions[k] < positions[l]
  {
    if rows == [] then []
    else if Described(rows[0]) then [0] + Shift(KeptPositions(rows[1..]))
    else Shift(KeptPositions(rows[1..]))
  }

  /** Output row k of the filter is input row KeptPositions(rows)[k]. */
  lemma {:induction false} KeepDescribedPositions(rows: seq<Row>)
    ensures |KeptPositions(rows)| == |KeepDescribed(rows)|
    ensures forall k :: 0 <= k < |KeepDescribed(rows)| ==>
      KeepDescribed(rows)[k] == rows[KeptPositions(rows)[k]]
  {
    if rows != [] {
      var tail := rows[1..];
      KeepDescribedPositions(tail);
      var kept, positions := KeepDescribed(rows), KeptPositions(rows);
      var tailKept, tailPositions := KeepDescribed(tail), KeptPositions(tail);
      if Described(rows[0]) {
        forall k | 0 <= k < |kept| ensures kept[k] == rows[positions[k]] {
          if k > 0 {
            assert kept[k] == tailKept[k - 1];
            assert positions[k] == tailPositions[k - 1] + 1;
            assert tail[tailPositions[k - 1]] == rows[positions[k]];
          }
        }
      } else {
        forall k | 0 <= k < |kept| ensures kept[k] == rows[positions[k]] {
          assert kept[k] == tailKept[k];
          assert positions[k] == tailPositions[k] + 1;
          assert tail[tailPositions[k]] == rows[positions[k]];
        }
      }
    }
  }

  /** The kept positions are exactly the positions of the described rows. */
  lemma {:induction false} KeptPositionsExact(rows: seq<Row>)
    ensures forall i :: i in KeptPositions(rows) <==> 0 <= i < |rows| && Described(rows[i])
  {
    if rows != [] {
      var tail := rows[1..];
      KeptPositionsExact(tail);
      var tailPositions := KeptPositions(tail);
      var shifted := Shift(tailPositions);
      assert KeptPositions(rows) == if Described(rows[0]) then [0] + shifted else shifted;
      forall i ensures i in shifted <==> 0 < i < |rows| && Described(rows[i]) {
        if i in shifted {
          var k :| 0 <= k < |shifted| && shifted[k] == i;
          assert tailPositions[k] in tailPositions;
          assert tail[i - 1] == rows[i];
        }
        if 0 < i < |rows| && Described(rows[i]) {
          assert tail[i - 1] == rows[i];
          assert i - 1 in tailPositions;
          var k :| 0 <= k < |tailPositions| && tailPositions[k] == i - 1;
          assert shifted[k] == i;
        }
      }
      forall k | 0 <= k < |shifted| ensures shifted[k] != 0 {
        assert 0 <= tailPositions[k];
      }
    }
  }

  /**
    The filter is the in-order subsequence of described rows: output row k
    is input row KeptPositions(rows)[k], those positions strictly increase,
    and they are exactly the positions of the described rows.
   */
  lemma KeepDescribedReindexes(rows: seq<Row>)
    ensures var kept, positions := KeepDescribed(rows), KeptPositions(rows);
      && |positions| == |kept|
      && (forall k :: 0 <= k < |kept| ==> 0 <= positions[k] < |rows| && kept[k] == rows[positions[k]])
      && (forall k, l :: 0 <= k < l < |positions| ==> positions[k] < positions[l])
      && (forall i :: i in positions <==> 0 <= i < |rows| && Described(rows[i]))
  {
    KeepDescribedPositions(rows);
    KeptPositionsExact(rows);
  }

  /** Concatenating tables and filtering commute. */
  lemma {:induction false} KeepDescribedAppend(a: seq<Row>, b: seq<Row>)
    ensures KeepDescribed(a + b) == KeepDescribed(a) + KeepDescribed(b)
  {
    if a == [] {
      assert a + b == b;
    } else {
      assert (a + b)[0] == a[0];
      assert (a + b)[1..] == a[1..] + b;
      KeepDescribedAppend(a[1..], b);
    }
  }

  /** Appending one row to the table adds its position to the described ones when it is described. */
  lemma DescribedPositionsSnoc(init: seq<Row>, last: Row)
    ensures DescribedPositions(init + [last]) ==
      DescribedPositions(init) + (if Described(last) then {|init|} else {})
  {
    var rows := init + [last];
    forall i | i in DescribedPositions(rows)
      ensures i in DescribedPositions(init) || (i == |init| && Described(last))
    {
      if i < |init| { assert init[i] == rows[i]; }
    }
    forall i | i in DescribedPositions(init) ensures i in DescribedPositions(rows) {
      assert init[i] == rows[i];
    }
    assert Described(last) ==> |init| in DescribedPositions(rows) by {
      assert rows[|init|] == last;
    }
  }

  /** The filter keeps as many rows as there are described rows. */
  lemma {:induction false} KeepDescribedCount(rows: seq<Row>)
    ensures |KeepDescribed(rows)| == |DescribedPositions(rows)|
  {
    if rows == [] {
      assert DescribedPositions(rows) == {};
    } else {
      var n := |rows| - 1;
      var init, last := rows[..n], rows[n];
      assert rows == init + [last];
      KeepDescribedCount(init);
      KeepDescribedAppend(init, [last]);
      assert [last][1..] == [];
      DescribedPositionsSnoc(init, last);
      var extra: set<int> := if Described(last) then {n} else {};
      assert n !in DescribedPositions(init);
      assert |DescribedPositions(init) + extra| == |DescribedPositions(init)| + |extra|;
    }
  }

  /** A table whose rows are all described passes the filter unchanged. */
  lemma {:induction false} KeepDescribedAllDescribed(rows: seq<Row>)
    requires forall k :: 0 <= k < |rows| ==> Described(rows[k])
    ensures KeepDescribed(rows) == rows
  {
    if rows != [] {
      KeepDescribedAllDescribed(rows[1..]);
    }
  }

  /** Filtering twice is filtering once. */
  lemma KeepDescribedIdempotent(rows: seq<Row>)
    ensures KeepDescribed(KeepDescribed(rows)) == KeepDescribed(rows)
  {
    KeepDescribedAllDescribed(KeepDescribed(rows));
  }

  /** The filter leaves something exactly when some row has a description. */
  lemma KeepDescribedNonEmptyIff(rows: seq<Row>)
    ensures KeepDescribed(rows) != [] <==> exists i :: 0 <= i < |rows| && Described(rows[i])
  {
    KeepDescribedReindexes(rows);
    if exists i :: 0 <= i < |rows| && Described(rows[i]) {
      var i :| 0 <= i < |rows| && Described(rows[i]);
      assert i in KeptPositions(rows);
    }
  }

  /* ---------------------------------------------------------------------- */
  /* Column reads and writes                                                */
  /* ---------------------------------------------------------------------- */

  /** `df['issue_date'] = column`: row k takes column[k], every other cell stays. */
  function WithIssueDates(rows: seq<Row>, column: seq<string>): (out: seq<Row>)
    requires |column| == |rows|
    ensures |out| == |rows|
    ensures forall k :: 0 <= k < |rows| ==>
      out[k].issueDate == column[k] && out[k].(issueDate := rows[k].issueDate) == rows[k]
  {
    seq(|rows|, k requires 0 <= k < |rows| => rows[k].(issueDate := column[k]))
  }

  /** `df['issue_time'] = column` */
  function WithIssueTimes(rows: seq<Row>, column: seq<string>): (out: seq<Row>)
    requires |column| == |rows|
    ensures |out| == |rows|
    ensures forall k :: 0 <= k < |rows| ==>
      out[k].issueTime == column[k] && out[k].(issueTime := rows[k].issueTime) == rows[k]
  {
    seq(|rows|, k requires 0 <= k < |rows| => rows[k].(issueTime := column[k]))
  }

  /** `[datetime[0:10] for datetime in df.issue_date]` */
  function TruncatedDates(rows: seq<Row>): (column: seq<string>)
    ensures |column| == |rows|
  {
    seq(|rows|, k requires 0 <= k < |rows| => TruncateDate(rows[k].issueDate))
  }

  /** `[parse_time(time) for time in df.issue_time]` */
  function FormattedTimes(rows: seq<Row>): (column: seq<string>)
    ensures |column| == |rows|
  {
    seq(|rows|, k requires 0 <= k < |rows| => ParseTime(rows[k].issueTime))
  }

  /* ---------------------------------------------------------------------- */
  /* The whole row-level transform                                          */
  /* ---------------------------------------------------------------------- */

  /**
    Filter, then rewrite the date column, then the time column. Without a
    violation_description column the filter's attribute lookup raises and
    the run stops there.
   */
  function TransformTable(records: seq<Row>): (r: Result<seq<Row>, TransformError>)
    ensures r.Err? ==> r.error == MissingColumn(DescriptionColumn)
    ensures r.Err? <==> forall i :: 0 <= i < |records| ==> records[i].violationDescription.Absent?
    ensures r.Ok? ==> |r.value| <= |records| && forall k :: 0 <= k < |r.value| ==> Described(r.value[k])
  {
    if !HasDescriptionColumn(records) then
      Err(MissingColumn(DescriptionColumn))
    else
      var kept := KeepDescribed(records);
      var dated := WithIssueDates(kept, TruncatedDates(kept));
      Ok(WithIssueTimes(dated, FormattedTimes(dated)))
  }

  /** Row k of the result is the k-th described input row with its date and time rewritten, and nothing else. */
  ghost predicate RewrittenFrom(out: Row, source: Row)
  {
    && out.issueDate == TruncateDate(source.issueDate)
    && out.issueTime == ParseTime(source.issueTime)
    && out.violationDescription == source.violationDescription
    && out.latitude == source.latitude
    && out.longitude == source.longitude
    && out.others == source.others
  }

  /**
    The transform succeeds exactly when there is a description column; it
    then has one row per described input row (none when every description is
    null), every row described, and row
    k is input row KeptPositions(records)[k] with only its issue_date cut to
    the date and its issue_time put in "HH:MM" form.
   */
  lemma TransformTableSpec(records: seq<Row>)
    ensures TransformTable(records).Ok? <==> HasDescriptionColumn(records)
    ensures TransformTable(records).Err? ==>
      TransformTable(records).error == MissingColumn(DescriptionColumn)
    ensures TransformTable(records).Ok? ==>
      var out, positions := TransformTable(records).value, KeptPositions(records);
      && |out| == |DescribedPositions(records)| == |positions|
      && forall k :: 0 <= k < |out| ==>
           && 0 <= positions[k] < |records|
           && Described(out[k])
           && RewrittenFrom(out[k], records[positions[k]])
  {
    KeepDescribedCount(records);
    KeepDescribedReindexes(records);
  }

  /**
    When every record has the description key but all values are null, the
    column exists, no row passes `notna`, and the result is an empty table
    rather than an error.
   */
  lemma {:induction false} TransformTableAllNull(records: seq<Row>)
    requires records != []
    requires forall i :: 0 <= i < |records| ==> records[i].violationDescription.Null?
    ensures TransformTable(records) == Ok([])
  {
    assert !records[0].violationDescription.Absent?;
    KeepDescribedNonEmptyIff(records);
  }

  /** A described input row whose time is 3 or 4 digits comes out with a time in "HH:MM" form. */
  lemma TransformTableClockTimes(records: seq<Row>, k: nat)
    requires TransformTable(records).Ok? && k < |TransformTable(records).value|
    requires var source := KeepDescribed(records)[k].issueTime;
      IsDigits(source) && (|source| == 3 || |source| == 4)
    ensures IsClockShape(TransformTable(records).value[k].issueTime)
  {
    ParseTimeClockValue(KeepDescribed(records)[k].issueTime);
  }

  /** Three fetched rows, one without a description (absent or null): two rows come out, reformatted. */
  lemma TransformTableScenario(first: Row, second: Row, third: Row)
    requires first.violationDescription.Text? && third.violationDescription.Text?
    requires !second.violationDescription.Text?
    requires first.issueDate == "2020-08-15T00:00:00.000" && first.issueTime == "930"
    requires third.issueDate == "2020-08-16T00:00:00.000" && third.issueTime == "1730"
    ensures TransformTable([first, second, third]).Ok?
    ensures var out := TransformTable([first, second, third]).value;
      && |out| == 2
      && out[0].issueDate == "2020-08-15" && out[0].issueTime == "09:30"
      && out[1].issueDate == "2020-08-16" && out[1].issueTime == "17:30"
  {
    var records := [first, second, third];
    assert KeepDescribed([third]) == [third] by {
      assert [third][1..] == [];
    }
    assert KeepDescribed([second, third]) == [third] by {
      assert [second, third][1..] == [third];
    }
    assert KeepDescribed(records) == [first, third] by {
      assert records[1..] == [second, third];
    }
    assert Described(records[0]);
    ParseTimeExamples();
  }
}
