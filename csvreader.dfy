/** The post-processing of `read_csv_data_frame` and `clean_csv_file`: the
    fixed-offset intraday date parsers, the column-name postfix, the cutoff
    filter and the removal of NUL characters from a CSV file's text. */
module CsvReader {

  import opened Wrappers
  import opened TimeSeries
  import opened Text
  import Seqs

  /** The six fields `datetime.datetime(year, month, day, hour, minute, second)` is built from. */
  datatype DateTime = DateTime(year: int, month: int, day: int, hour: int, minute: int, second: int)

  predicate IsLeapYear(y: int)
  {
    y % 4 == 0 && (y % 100 != 0 || y % 400 == 0)
  }

  /** The length of month `m` of year `y` in the Gregorian calendar. */
  function DaysInMonth(y: int, m: int): (n: int)
    requires 1 <= m <= 12
    ensures 28 <= n <= 31
    ensures m == 2 ==> (n == 29 <==> IsLeapYear(y)) && (n == 28 <==> !IsLeapYear(y))
    ensures m == 4 || m == 6 || m == 9 || m == 11 ==> n == 30
    ensures m == 1 || m == 3 || m == 5 || m == 7 || m == 8 || m == 10 || m == 12 ==> n == 31
  {
    if m == 2 then (if IsLeapYear(y) then 29 else 28)
    else if m == 4 || m == 6 || m == 9 || m == 11 then 30
    else 31
  }

  /** The ranges `datetime.datetime` accepts. */
  predicate ValidDateTime(d: DateTime)
  {
    1 <= d.year <= 9999 && 1 <= d.month <= 12 && 1 <= d.day <= DaysInMonth(d.year, d.month)
    && 0 <= d.hour < 24 && 0 <= d.minute < 60 && 0 <= d.second < 60
  }

  /** `datetime.datetime(y, m, d, h, mi, s)`: the point in time, or
      `ValueError` when a field is out of range. */
  function MakeDateTime(y: int, m: int, d: int, h: int, mi: int, s: int): (r: Result<DateTime>)
    ensures r.Success? <==> ValidDateTime(DateTime(y, m, d, h, mi, s))
    ensures r.Success? ==> r.value == DateTime(y, m, d, h, mi, s)
    ensures r.Failure? ==> r.error == ValueError
  {
    var dt := DateTime(y, m, d, h, mi, s);
    if ValidDateTime(dt) then Success(dt) else Failure(ValueError)
  }

  /** One or more ASCII digits. */
  predicate Unsigned(t: string)
  {
    |t| >= 1 && AllDigits(t)
  }

  /** The sign `sign` followed by one or more ASCII digits. */
  predicate Signed(t: string, sign: char)
  {
    |t| >= 2 && t[0] == sign && Unsigned(t[1..])
  }

  /** Python's `int(s)` on a string: surrounding whitespace is ignored, an
      optional sign may precede the digits, and anything else, the empty
      string included, raises `ValueError`. */
  function ParseInt(s: string): (r: Result<int>)
    ensures r.Success? <==> Unsigned(Strip(s)) || Signed(Strip(s), '+') || Signed(Strip(s), '-')
    ensures r.Failure? ==> r.error == ValueError
    ensures Unsigned(Strip(s)) ==> r == Success(DigitsValue(Strip(s)))
    ensures Signed(Strip(s), '+') ==> r == Success(DigitsValue(Strip(s)[1..]))
    ensures Signed(Strip(s), '-') ==> r == Success(0 - DigitsValue(Strip(s)[1..]))
    ensures Strip(s) == [] ==> r.Failure?
    ensures r.Success? ==> Strip(s) != [] && (IsDigit(Strip(s)[0]) || Strip(s)[0] == '+' || Strip(s)[0] == '-')
  {
    var t := Strip(s);
    if Unsigned(t) then Success(DigitsValue(t))
    else if Signed(t, '+') then Success(DigitsValue(t[1..]))
    else if Signed(t, '-') then Success(0 - DigitsValue(t[1..]))
    else Failure(ValueError)
  }

  /** `int()` skips a vertical tab in front of a number ... */
  lemma VerticalTabSkipped(s: string)
    requires s == "\U{B}7"
    ensures ParseInt(s) == Success(7)
  {
    assert Strip(s) == Strip(s[1..]) == s[1..];
    assert DigitsValue(s[1..]) == DigitsValue([]) * 10 + 7;
  }

  /** ... but not the separator 0x1C, which makes the text no number. */
  lemma SeparatorNotSkipped(s: string)
    requires s == "\U{1C}5"
    ensures ParseInt(s) == Failure(ValueError)
  {
    assert Strip(s) == s;
  }

  /** A text holding a letter where a digit should be is not a number. */
  lemma NonDigitRejected(s: string)
    requires Strip(s) != [] && !IsDigit(Strip(s)[0]) && Strip(s)[0] != '+' && Strip(s)[0] != '-'
    ensures ParseInt(s) == Failure(ValueError)
  {
  }

  /** `datetime.datetime(*map(int, fields))` for the six texts year, month,
      day, hour, minute and second: `ValueError` when a text is not a number
      or the numbers are not a valid date and time. */
  function ParseFields(ys: string, ms: string, ds: string, hs: string, mins: string, ss: string)
    : (r: Result<DateTime>)
    ensures r.Failure? ==> r.error == ValueError
    ensures r.Success? ==> ValidDateTime(r.value)
    ensures r.Success? <==>
              ParseInt(ys).Success? && ParseInt(ms).Success? && ParseInt(ds).Success?
              && ParseInt(hs).Success? && ParseInt(mins).Success? && ParseInt(ss).Success?
              && ValidDateTime(DateTime(ParseInt(ys).value, ParseInt(ms).value, ParseInt(ds).value,
                                        ParseInt(hs).value, ParseInt(mins).value, ParseInt(ss).value))
    ensures r.Success? ==>
              r.value == DateTime(ParseInt(ys).value, ParseInt(ms).value, ParseInt(ds).value,
                                  ParseInt(hs).value, ParseInt(mins).value, ParseInt(ss).value)
  {
    var y, m, d := ParseInt(ys), ParseInt(ms), ParseInt(ds);
    var h, mi, s := ParseInt(hs), ParseInt(mins), ParseInt(ss);
    if y.Failure? || m.Failure? || d.Failure? || h.Failure? || mi.Failure? || s.Failure? then
      Failure(ValueError)
    else
      MakeDateTime(y.value, m.value, d.value, h.value, mi.value, s.value)
  }

  /** The default intraday parser: "DD?MM?YYYY?hh?mm?ss", the fields read
      at offsets [6:10], [3:5], [0:2], [11:13], [14:16] and [17:19] and the
      characters between them ignored. */
  function ParseDefault(x: string): (r: Result<DateTime>)
    ensures r.Failure? ==> r.error == ValueError
    ensures r.Success? ==> ValidDateTime(r.value)
    ensures |x| <= 17 ==> r.Failure?
  {
    assert |x| <= 17 ==> Slice(x, 17, 19) == [];
    ParseFields(Slice(x, 6, 10), Slice(x, 3, 5), Slice(x, 0, 2),
                Slice(x, 11, 13), Slice(x, 14, 16), Slice(x, 17, 19))
  }

  /** The dukascopy parser: "YYYY?MM?DD?hh?mm?ss", the date read at offsets
      [0:4], [5:7] and [8:10], the time as in the default parser. */
  function ParseDukascopy(x: string): (r: Result<DateTime>)
    ensures r.Failure? ==> r.error == ValueError
    ensures r.Success? ==> ValidDateTime(r.value)
    ensures |x| <= 17 ==> r.Failure?
  {
    assert |x| <= 17 ==> Slice(x, 17, 19) == [];
    ParseFields(Slice(x, 0, 4), Slice(x, 5, 7), Slice(x, 8, 10),
                Slice(x, 11, 13), Slice(x, 14, 16), Slice(x, 17, 19))
  }

  /** The date parser handed to `pandas.read_csv` for intraday data. */
  datatype DateParser =
    | DefaultIntraday          // `dateparse` left as None
    | Dukascopy                // `dateparse` equal to 'dukascopy'
    | Ciso8601                 // `dateparse` equal to 'c'
    | PassedThrough(tag: string) // any other value goes to pandas as given

  /** The branch on the `dateparse` argument for intraday files. */
  function IntradayParser(dateparse: Option<string>): (p: DateParser)
    ensures p == DefaultIntraday <==> dateparse.None?
    ensures p == Dukascopy <==> dateparse == Some("dukascopy")
    ensures p == Ciso8601 <==> dateparse == Some("c")
    ensures p.PassedThrough? ==> dateparse == Some(p.tag) && p.tag != "dukascopy" && p.tag != "c"
  {
    match dateparse
    case None => DefaultIntraday
    case Some(tag) =>
      if tag == "dukascopy" then Dukascopy
      else if tag == "c" then Ciso8601
      else PassedThrough(tag)
  }

  /** Two decimal digits with a leading zero, as written by `%02d`. */
  function Pad2(n: nat): (r: string)
    requires n < 100
    ensures |r| == 2 && AllDigits(r)
  {
    [DigitChar(n / 10), DigitChar(n % 10)]
  }

  /** Four decimal digits with leading zeros, as written by `%04d`. */
  function Pad4(n: nat): (r: string)
    requires n < 10000
    ensures |r| == 4 && AllDigits(r)
  {
    [DigitChar(n / 1000), DigitChar(n / 100 % 10), DigitChar(n / 10 % 10), DigitChar(n % 10)]
  }

  lemma DigitCharValue(d: nat)
    requires d < 10
    ensures (DigitChar(d) as int) - ('0' as int) == d
  {
  }

  /** Reading one more digit shifts the value read so far by one place. */
  lemma DigitsValueSnoc(s: string, c: char)
    requires AllDigits(s) && IsDigit(c)
    ensures AllDigits(s + [c])
    ensures DigitsValue(s + [c]) == DigitsValue(s) * 10 + ((c as int) - ('0' as int))
  {
    assert (s + [c])[..|s|] == s;
  }

  /** `int()` of a string of digits is the number they spell. */
  lemma ParseDigits(p: string)
    requires Unsigned(p)
    ensures ParseInt(p) == Success(DigitsValue(p))
  {
    assert !IsSpace(p[0]) && !IsSpace(p[|p| - 1]);
  }

  /** A zero-padded two-digit field reads back as its number. */
  lemma ParsePad2(n: nat)
    requires n < 100
    ensures ParseInt(Pad2(n)) == Success(n)
  {
    var a, b := DigitChar(n / 10), DigitChar(n % 10);
    DigitCharValue(n / 10);
    DigitCharValue(n % 10);
    DigitsValueSnoc([], a);
    assert [] + [a] == [a];
    DigitsValueSnoc([a], b);
    assert Pad2(n) == [a] + [b];
    ParseDigits(Pad2(n));
  }

  /** A zero-padded four-digit field reads back as its number. */
  lemma ParsePad4(n: nat)
    requires n < 10000
    ensures ParseInt(Pad4(n)) == Success(n)
  {
    var a, b, c, d := DigitChar(n / 1000), DigitChar(n / 100 % 10), DigitChar(n / 10 % 10), DigitChar(n % 10);
    DigitCharValue(n / 1000);
    DigitCharValue(n / 100 % 10);
    DigitCharValue(n / 10 % 10);
    DigitCharValue(n % 10);
    DigitsValueSnoc([], a);
    assert [] + [a] == [a];
    DigitsValueSnoc([a], b);
    DigitsValueSnoc([a, b], c);
    assert [a] + [b] == [a, b] && [a, b] + [c] == [a, b, c];
    DigitsValueSnoc([a, b, c], d);
    assert Pad4(n) == [a, b, c] + [d];
    var q1 := n / 10;
    var q2 := q1 / 10;
    assert n / 100 == q2 && n / 1000 == q2 / 10;
    assert q2 == q2 / 10 * 10 + q2 % 10 && q1 == q2 * 10 + q1 % 10;
    ParseDigits(Pad4(n));
  }

  /** A valid date and time written as "DD?MM?YYYY?hh?mm?ss" followed by
      anything, with any five separator characters. */
  function FormatDefault(d: DateTime, seps: string, tail: string): (x: string)
    requires ValidDateTime(d) && |seps| == 5
    ensures |x| == 19 + |tail|
  {
    Pad2(d.day) + [seps[0]] + Pad2(d.month) + [seps[1]] + Pad4(d.year) + [seps[2]]
    + Pad2(d.hour) + [seps[3]] + Pad2(d.minute) + [seps[4]] + Pad2(d.second) + tail
  }

  /** A valid date and time written as "YYYY?MM?DD?hh?mm?ss" followed by anything. */
  function FormatDukascopy(d: DateTime, seps: string, tail: string): (x: string)
    requires ValidDateTime(d) && |seps| == 5
    ensures |x| == 19 + |tail|
  {
    Pad4(d.year) + [seps[0]] + Pad2(d.month) + [seps[1]] + Pad2(d.day) + [seps[2]]
    + Pad2(d.hour) + [seps[3]] + Pad2(d.minute) + [seps[4]] + Pad2(d.second) + tail
  }

  /** The default parser reads back every zero-padded timestamp, whatever
      the separators are and whatever follows the seconds. */
  lemma ParseDefaultRoundTrip(d: DateTime, seps: string, tail: string)
    requires ValidDateTime(d) && |seps| == 5
    ensures ParseDefault(FormatDefault(d, seps, tail)) == Success(d)
  {
    var x := FormatDefault(d, seps, tail);
    assert Slice(x, 0, 2) == Pad2(d.day);
    assert Slice(x, 3, 5) == Pad2(d.month);
    assert Slice(x, 6, 10) == Pad4(d.year);
    assert Slice(x, 11, 13) == Pad2(d.hour);
    assert Slice(x, 14, 16) == Pad2(d.minute);
    assert Slice(x, 17, 19) == Pad2(d.second);
    ParsePad2(d.day);
    ParsePad2(d.month);
    ParsePad4(d.year);
    ParsePad2(d.hour);
    ParsePad2(d.minute);
    ParsePad2(d.second);
  }

  /** The dukascopy parser reads back every zero-padded timestamp in its layout. */
  lemma ParseDukascopyRoundTrip(d: DateTime, seps: string, tail: string)
    requires ValidDateTime(d) && |seps| == 5
    ensures ParseDukascopy(FormatDukascopy(d, seps, tail)) == Success(d)
  {
    var x := FormatDukascopy(d, seps, tail);
    assert Slice(x, 0, 4) == Pad4(d.year);
    assert Slice(x, 5, 7) == Pad2(d.month);
    assert Slice(x, 8, 10) == Pad2(d.day);
    assert Slice(x, 11, 13) == Pad2(d.hour);
    assert Slice(x, 14, 16) == Pad2(d.minute);
    assert Slice(x, 17, 19) == Pad2(d.second);
    ParsePad4(d.year);
    ParsePad2(d.month);
    ParsePad2(d.day);
    ParsePad2(d.hour);
    ParsePad2(d.minute);
    ParsePad2(d.second);
  }

  /** The intraday renaming loop: every column name gets `postfix`
      appended, keeping the number and order of the columns. */
  method AddPostfix(cols: seq<string>, postfix: string) returns (r: seq<string>)
    ensures |r| == |cols|
    ensures forall j :: 0 <= j < |r| ==> r[j] == cols[j] + postfix
  {
    r := [];
    for j := 0 to |cols|
      invariant |r| == j
      invariant forall k :: 0 <= k < j ==> r[k] == cols[k] + postfix
    {
      r := r + [cols[j] + postfix];
    }
  }

  /** A postfixed name ends with the postfix, and dropping it gives back the original name. */
  lemma PostfixRemovable(col: string, postfix: string)
    ensures EndsWith(col + postfix, postfix)
    ensures (col + postfix)[..|col|] == col
  {
    assert (col + postfix)[|col|..] == postfix;
  }

  /** The test "index earlier than `cutoff`", to select rows with. */
  function Before<V>(cutoff: int): Row<V> -> bool
  {
    (row: Row<V>) => row.stamp < cutoff
  }

  /** `data_frame.loc[data_frame.index < cutoff]`. */
  function CutOff<V>(rows: seq<Row<V>>, cutoff: int): (r: seq<Row<V>>)
    ensures |r| <= |rows|
  {
    Seqs.Filter(rows, Before(cutoff))
  }

  /** The cutoff keeps exactly the rows earlier than it. */
  lemma CutOffMembers<V>(rows: seq<Row<V>>, cutoff: int)
    ensures forall row :: row in CutOff(rows, cutoff) <==> row in rows && row.stamp < cutoff
  {
    Seqs.FilterMembers(rows, Before(cutoff));
  }

  /** The cutoff keeps the original order: cutting a concatenation cuts each part. */
  lemma CutOffOrder<V>(a: seq<Row<V>>, b: seq<Row<V>>, cutoff: int)
    ensures CutOff(a + b, cutoff) == CutOff(a, cutoff) + CutOff(b, cutoff)
  {
    Seqs.FilterConcat(a, b, Before(cutoff));
  }

  /** Cutting twice at the same point cuts nothing more. */
  lemma CutOffIdempotent<V>(rows: seq<Row<V>>, cutoff: int)
    ensures CutOff(CutOff(rows, cutoff), cutoff) == CutOff(rows, cutoff)
  {
    Seqs.FilterIdempotent(rows, Before(cutoff));
  }

  /** On a sorted index the cutoff keeps a prefix of the rows. */
  lemma {:induction false} CutOffSortedPrefix<V>(rows: seq<Row<V>>, cutoff: int)
    requires Sorted(rows)
    ensures CutOff(rows, cutoff) == rows[..|CutOff(rows, cutoff)|]
  {
    if rows != [] {
      assert Sorted(rows[1..]);
      CutOffSortedPrefix(rows[1..], cutoff);
      if rows[0].stamp >= cutoff {
        forall row | row in rows[1..] ensures row.stamp >= cutoff {
        }
        Seqs.FilterDropsAll(rows[1..], Before(cutoff));
      }
    }
  }

  /** What `read_csv_data_frame` does to a table pandas has read: intraday
      columns get `postfix`, then a cutoff, when given, drops every row not
      earlier than it. */
  method ReadCsvFrame<V>(freq: string, cols: seq<string>, rows: seq<Row<V>>,
                         cutoff: Option<int>, postfix: string)
    returns (cols': seq<string>, rows': seq<Row<V>>)
    ensures freq == "intraday" ==>
              |cols'| == |cols| && forall j :: 0 <= j < |cols| ==> cols'[j] == cols[j] + postfix
    ensures freq != "intraday" ==> cols' == cols
    ensures cutoff.None? ==> rows' == rows
    ensures cutoff.Some? ==> forall row :: row in rows' <==> row in rows && row.stamp < cutoff.value
    ensures cutoff.Some? ==> rows' == CutOff(rows, cutoff.value)
  {
    if freq == "intraday" {
      cols' := AddPostfix(cols, postfix);
    } else {
      cols' := cols;
    }
    rows' := rows;
    if cutoff.Some? {
      rows' := CutOff(rows, cutoff.value);
      CutOffMembers(rows, cutoff.value);
    }
  }

  /** `clean_csv_file`: when the file's text holds a NUL character, the
      text rewritten without any NUL; otherwise nothing is written. */
  function CleanCsv(data: string): (r: Option<string>)
    ensures r.None? <==> '\0' !in data
    ensures r.Some? ==> '\0' !in r.value
    ensures r.Some? ==> r.value == Seqs.Filter(data, NotChar('\0'))
  {
    if '\0' in data then
      ReplaceRemovesChar(data, '\0', []);
      ReplaceByEmpty(data, '\0');
      Some(Replace(data, "\0", ""))
    else None
  }

  /** A cleaned file needs no second cleaning. */
  lemma CleanCsvSettles(data: string)
    requires CleanCsv(data).Some?
    ensures CleanCsv(CleanCsv(data).value).None?
  {
  }

  /** Cleaning keeps every other character, in order. */
  lemma CleanCsvKeepsText(data: string)
    ensures forall c :: c != '\0' ==> (c in data <==> c in Seqs.Filter(data, NotChar('\0')))
  {
    Seqs.FilterMembers(data, NotChar('\0'));
  }
}
