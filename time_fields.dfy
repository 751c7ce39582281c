/**
  The two field rewrites of the transform step: `parse_time`, which turns a
  separator-less military time such as "930" or "1730" into "HH:MM", and the
  truncation of an issue-date timestamp to its date part.
 */
module TimeFields {
  import opened PySlice

  /* ---------------------------------------------------------------------- */
  /* parse_time                                                             */
  /* ---------------------------------------------------------------------- */

  /**
    A 3-character time gets a leading '0'; every other length is split two
    characters from the end. Nothing checks that the input is 3 or 4 digits
    long: other lengths come out malformed rather than failing.
   */
  function ParseTime(time: string): (r: string)
    ensures |r| == if |time| == 3 then 5 else |time| + 1
  {
    if |time| == 3 then
      "0" + [time[0]] + ":" + SliceFrom(time, -2)
    else
      Slice(time, 0, -2) + ":" + SliceFrom(time, -2)
  }

  /** `s` with the element at position `i` deleted. */
  function RemoveAt(s: string, i: nat): (r: string)
    requires i < |s|
    ensures |r| == |s| - 1
  {
    s[..i] + s[i + 1..]
  }

  /** "930" becomes "09:30": a zero, the hour digit, a colon, the two minute digits. */
  lemma ParseTimeThreeChars(time: string)
    requires |time| == 3
    ensures |ParseTime(time)| == 5
    ensures ParseTime(time) == "0" + [time[0]] + ":" + time[1..3]
  {
    LastSlice(time, 2);
  }

  /** "1730" becomes "17:30": the two hour digits, a colon, the two minute digits. */
  lemma ParseTimeFourChars(time: string)
    requires |time| == 4
    ensures |ParseTime(time)| == 5
    ensures ParseTime(time) == time[..2] + ":" + time[2..]
  {
    DropLastSlice(time, 2);
    LastSlice(time, 2);
  }

  /** The output has the five characters of "HH:MM" exactly when the input is 3 or 4 long. */
  lemma ParseTimeFiveCharsIff(time: string)
    ensures |ParseTime(time)| == 5 <==> |time| == 3 || |time| == 4
  {
  }

  /**
    For any length other than 3 the output is the input with one ':' inserted
    two characters from the end (at the front when the input is shorter than
    2); deleting it gives the input back.
   */
  lemma {:induction false} ParseTimeRoundTrip(time: string)
    requires |time| != 3
    ensures var c := Max(0, |time| - 2);
      && |ParseTime(time)| == |time| + 1
      && ParseTime(time)[c] == ':'
      && RemoveAt(ParseTime(time), c) == time
  {
    var c := Max(0, |time| - 2);
    var r := ParseTime(time);
    DropLastSlice(time, 2);
    LastSlice(time, 2);
    assert r == time[..c] + ":" + time[c..];
    assert r[..c] == time[..c];
    assert r[c + 1..] == time[c..];
    assert time[..c] + time[c..] == time;
  }

  /**
    For a 3-character input the output is the input with a '0' put in front
    and a ':' after the hour digit; deleting both gives the input back.
   */
  lemma {:induction false} ParseTimePaddedRoundTrip(time: string)
    requires |time| == 3
    ensures ParseTime(time)[0] == '0' && ParseTime(time)[2] == ':'
    ensures RemoveAt(RemoveAt(ParseTime(time), 2), 0) == time
  {
    ParseTimeThreeChars(time);
    var r := ParseTime(time);
    assert RemoveAt(r, 2) == ['0', time[0], time[1], time[2]];
    assert time == [time[0], time[1], time[2]];
  }

  /** Whatever the length, the output ends with ':' and the last min(2, |time|) characters of the input. */
  lemma ParseTimeSuffix(time: string)
    ensures var k := Min(2, |time|);
      && k + 1 <= |ParseTime(time)|
      && ParseTime(time)[|ParseTime(time)| - k - 1..] == ":" + time[|time| - k..]
  {
    LastSlice(time, 2);
  }

  /* The clock meaning of a time string. */

  predicate IsDigit(c: char) { '0' <= c <= '9' }

  predicate IsDigits(s: string) { forall i :: 0 <= i < |s| ==> IsDigit(s[i]) }

  function DigitValue(c: char): nat
    requires IsDigit(c)
  {
    (c as int) - ('0' as int)
  }

  /** The number a string of decimal digits spells. */
  function DecimalValue(s: string): (n: nat)
    requires IsDigits(s)
  {
    if s == [] then 0 else DecimalValue(s[..|s| - 1]) * 10 + DigitValue(s[|s| - 1])
  }

  /** `s` has the shape "HH:MM": two digits, a colon, two digits. */
  predicate IsClockShape(s: string)
  {
    |s| == 5 && IsDigit(s[0]) && IsDigit(s[1]) && s[2] == ':' && IsDigit(s[3]) && IsDigit(s[4])
  }

  lemma TwoDigitValue(s: string)
    requires |s| == 2 && IsDigits(s)
    ensures DecimalValue(s) == 10 * DigitValue(s[0]) + DigitValue(s[1])
  {
    var first := s[..|s| - 1];
    assert first == [s[0]];
    assert first[..|first| - 1] == [];
    assert DecimalValue(first) == DigitValue(s[0]);
  }

  lemma ThreeDigitValue(s: string)
    requires |s| == 3 && IsDigits(s)
    ensures DecimalValue(s) == 100 * DigitValue(s[0]) + DecimalValue(s[1..])
  {
    TwoDigitValue(s[..2]);
    TwoDigitValue(s[1..]);
    assert s[..2] == s[..|s| - 1];
  }

  lemma FourDigitValue(s: string)
    requires |s| == 4 && IsDigits(s)
    ensures DecimalValue(s) == 100 * DecimalValue(s[..2]) + DecimalValue(s[2..])
  {
    ThreeDigitValue(s[..3]);
    TwoDigitValue(s[..2]);
    TwoDigitValue(s[2..]);
    assert s[..3][1..] == s[1..3];
    TwoDigitValue(s[1..3]);
    assert s[..3] == s[..|s| - 1];
  }

  lemma DivModHundred(hours: nat, minutes: nat)
    requires minutes < 100
    ensures (100 * hours + minutes) / 100 == hours
    ensures (100 * hours + minutes) % 100 == minutes
  {
  }

  /**
    On a 3- or 4-digit time the output is "HH:MM", where HH is the number the
    input spells divided by 100 (zero-padded) and MM the remainder: the
    separator is inserted without changing the time of day the input denotes.
   */
  lemma {:induction false} ParseTimeClockValue(time: string)
    requires IsDigits(time) && (|time| == 3 || |time| == 4)
    ensures IsClockShape(ParseTime(time))
    ensures DecimalValue(ParseTime(time)[..2]) == DecimalValue(time) / 100
    ensures DecimalValue(ParseTime(time)[3..]) == DecimalValue(time) % 100
  {
    var r := ParseTime(time);
    if |time| == 3 {
      ParseTimeThreeChars(time);
      assert r[..2] == ['0', time[0]];
      assert r[3..] == time[1..];
      TwoDigitValue(r[..2]);
      TwoDigitValue(r[3..]);
      ThreeDigitValue(time);
      DivModHundred(DigitValue(time[0]), DecimalValue(time[1..]));
    } else {
      ParseTimeFourChars(time);
      assert r[..2] == time[..2];
      assert r[3..] == time[2..];
      TwoDigitValue(time[2..]);
      FourDigitValue(time);
      DivModHundred(DecimalValue(time[..2]), DecimalValue(time[2..]));
    }
  }

  /** Worked examples of the time rewrite. */
  lemma ParseTimeExamples()
    ensures ParseTime("930") == "09:30"
    ensures ParseTime("1730") == "17:30"
    ensures ParseTime("100") == "01:00"
  {
    ParseTimeThreeChars("930");
    assert "930"[0] == '9' && "930"[1..3] == "30";
    assert "0" + ['9'] + ":" + "30" == "09:30";
    ParseTimeFourChars("1730");
    assert "1730"[..2] == "17" && "1730"[2..] == "30";
    assert "17" + ":" + "30" == "17:30";
    ParseTimeThreeChars("100");
    assert "100"[0] == '1' && "100"[1..3] == "00";
    assert "0" + ['1'] + ":" + "00" == "01:00";
  }

  /* ---------------------------------------------------------------------- */
  /* issue_date truncation                                                  */
  /* ---------------------------------------------------------------------- */

  /** `datetime[0:10]`: the first ten characters, or all of a shorter string. */
  function TruncateDate(datetime: string): (r: string)
    ensures |r| == Min(10, |datetime|)
    ensures r == datetime[..|r|]
  {
    PrefixSlice(datetime, 10);
    Slice(datetime, 0, 10)
  }

  /** Truncating an already truncated date changes nothing. */
  lemma TruncateDateIdempotent(datetime: string)
    ensures TruncateDate(TruncateDate(datetime)) == TruncateDate(datetime)
  {
  }

  /** An ISO-8601 timestamp keeps exactly its date part. */
  lemma TruncateDateExample()
    ensures TruncateDate("2020-08-15T00:00:00.000") == "2020-08-15"
  {
  }
}
