/** The ordering the two dashboards give the login log: the date key
    `date.split('-').reverse().join('-')` turns "DD-MM-YYYY" into
    "YYYY-MM-DD", the key and the time are parsed as one date-time, and the
    comparator `dateTimeB - dateTimeA` puts the newest entry first. Date
    parsing is a function supplied by the caller, from text to milliseconds. */
module LogOrder {
  import Text
  import Sorting

  /** A login log entry as the client receives it. */
  datatype LogRow = LogRow(name: string, date: string, time: string)

  /** `date.split('-').reverse().join('-')`: the key's dash-separated fields
      are the date's, in reverse order. */
  function DateKey(date: string): (key: string)
    ensures Text.Split(key, '-') == Text.Reverse(Text.Split(date, '-'))
  {
    ReversedFieldsRejoin(date);
    Text.Join(Text.Reverse(Text.Split(date, '-')), '-')
  }

  /** Joining the reversed fields and splitting again gives them back. */
  lemma ReversedFieldsRejoin(date: string)
    ensures var reversed := Text.Reverse(Text.Split(date, '-'));
      Text.Split(Text.Join(reversed, '-'), '-') == reversed
  {
    var parts := Text.Split(date, '-');
    var reversed := Text.Reverse(parts);
    Text.SplitFieldsFree(date, '-');
    forall i | 0 <= i < |reversed|
      ensures '-' !in reversed[i]
    {
      Text.ReverseAt(parts, i);
    }
    Text.SplitJoin(reversed, '-');
  }

  /** Reversing the dash-separated parts turns day-month-year into year-month-day. */
  lemma DateKeyOfDayMonthYear(day: string, month: string, year: string)
    requires '-' !in day && '-' !in month && '-' !in year
    ensures DateKey(day + "-" + month + "-" + year) == year + "-" + month + "-" + day
  {
    var date := day + "-" + month + "-" + year;
    Text.SplitAtSeparator(day, month + "-" + year, '-');
    assert date == day + ['-'] + (month + "-" + year);
    Text.SplitAtSeparator(month, year, '-');
    assert month + "-" + year == month + ['-'] + year;
    Text.SplitFreePrefix(year, "", '-');
    assert year + "" == year;
    assert Text.Split(date, '-') == [day, month, year];
    assert Text.Reverse([day, month, year]) == [year, month, day] by {
      assert [day, month, year][1..] == [month, year];
      assert [month, year][1..] == [year];
      assert [year][1..] == [];
      assert Text.Reverse([year]) == [year];
      assert Text.Reverse([month, year]) == [year, month];
    }
    assert Text.Join([year, month, day], '-') == year + "-" + month + "-" + day by {
      assert [year, month, day][1..] == [month, day];
      assert [month, day][1..] == [day];
      assert Text.Join([month, day], '-') == month + ['-'] + day;
    }
  }

  /** The date key undoes itself, whatever the date text. */
  lemma DateKeyInvolution(date: string)
    ensures DateKey(DateKey(date)) == date
  {
    Text.ReverseInvolution(Text.Split(date, '-'));
    Text.JoinSplit(date, '-');
  }

  /** The instant a log entry stands for: `new Date(`${key}T${time}`)`. */
  function Timestamp(log: LogRow, parse: string -> int): int {
    parse(DateKey(log.date) + "T" + log.time)
  }

  /** A log dated "DD-MM-YYYY" at time t is the instant "YYYY-MM-DDTt". */
  lemma TimestampOfDayMonthYear(name: string, day: string, month: string, year: string, time: string,
                                parse: string -> int)
    requires '-' !in day && '-' !in month && '-' !in year
    ensures Timestamp(LogRow(name, day + "-" + month + "-" + year, time), parse)
         == parse(year + "-" + month + "-" + day + "T" + time)
  {
    DateKeyOfDayMonthYear(day, month, year);
  }

  /** The comparator `(a, b) => dateTimeB - dateTimeA`: ascending in minus the instant. */
  function NewestFirst(logs: seq<LogRow>, parse: string -> int): (r: seq<LogRow>)
    ensures multiset(r) == multiset(logs)
    ensures forall i, j :: 0 <= i < j < |r| ==> Timestamp(r[i], parse) >= Timestamp(r[j], parse)
  {
    var sorted := Sorting.SortBy(logs, (l: LogRow) => -Timestamp(l, parse));
    assert forall i, j :: 0 <= i < j < |sorted| ==>
      -Timestamp(sorted[i], parse) <= -Timestamp(sorted[j], parse);
    sorted
  }
}
