/**
 * The clinic's fixed holidays. Two tables carry them: the booking route's
 * `isHoliday`, which rejects bookings, and the holiday endpoint, which returns
 * the named holidays of a requested year. Both are keyed "<year>-MM-DD".
 */
module Holidays {

  /** The month-days `isHoliday` rejects. */
  const BookingClosedDays: seq<string> :=
    ["01-01", "02-10", "04-02", "04-03", "04-09", "05-01", "06-12",
     "08-21", "08-26", "11-01", "11-30", "12-25", "12-30"]

  /** The holiday endpoint's entries: month-day and name. */
  const CalendarEntries: seq<(string, string)> :=
    [("01-01", "New Year's Day"), ("02-10", "Chinese New Year"),
     ("04-02", "Maundy Thursday"), ("04-03", "Good Friday"),
     ("04-09", "Araw ng Kagitingan"), ("05-01", "Labor Day"),
     ("06-12", "Independence Day"), ("08-21", "Ninoy Aquino Day"),
     ("08-26", "National Heroes Day"), ("11-01", "All Saints' Day"),
     ("11-30", "Bonifacio Day"), ("12-25", "Christmas Day"),
     ("12-30", "Rizal Day")]

  /** `date.split("-")[0]`: everything before the first hyphen. */
  function YearOf(date: string): (y: string)
    ensures '-' !in y
    ensures |y| <= |date| && y == date[..|y|]
    ensures |y| < |date| ==> date[|y|] == '-'
  {
    if date == [] || date[0] == '-' then []
    else
      var y := [date[0]] + YearOf(date[1..]);
      assert date == [date[0]] + date[1..];
      y
  }

  /** The key both tables use for a month-day of a year. */
  function KeyOf(year: string, monthDay: string): string
  {
    year + "-" + monthDay
  }

  /** The dates `isHoliday` rejects, for the year taken from the date itself. */
  function BookingHolidays(year: string): set<string>
  {
    set i | 0 <= i < |BookingClosedDays| :: KeyOf(year, BookingClosedDays[i])
  }

  /** `isHoliday(date)`. */
  predicate IsHoliday(date: string)
  {
    date in BookingHolidays(YearOf(date))
  }

  /** The object literal the holiday endpoint builds: entries written in order, a later
      key overwriting an earlier one. */
  function TableOf(year: string, entries: seq<(string, string)>): map<string, string>
  {
    if entries == [] then map[]
    else
      var last := entries[|entries| - 1];
      TableOf(year, entries[..|entries| - 1])[KeyOf(year, last.0) := last.1]
  }

  /** The holidays of a requested year; the year text is used verbatim. */
  function HolidayTable(year: string): map<string, string>
  {
    TableOf(year, CalendarEntries)
  }

  /** A year without hyphens is recovered from any key built on it. */
  lemma {:induction false} YearOfKey(year: string, rest: string)
    requires '-' !in year
    ensures YearOf(year + "-" + rest) == year
  {
    if year != [] {
      assert (year + "-" + rest)[1..] == year[1..] + "-" + rest;
      YearOfKey(year[1..], rest);
      assert [year[0]] + year[1..] == year;
    }
  }

  /** Keys built on one year differ exactly when their month-days differ. */
  lemma KeyInjective(year: string, a: string, b: string)
    ensures KeyOf(year, a) == KeyOf(year, b) ==> a == b
  {
    var ka, kb := KeyOf(year, a), KeyOf(year, b);
    assert ka[|year| + 1..] == a;
    assert kb[|year| + 1..] == b;
  }

  predicate DistinctMonthDays(entries: seq<(string, string)>)
  {
    forall i, j :: 0 <= i < j < |entries| ==> entries[i].0 != entries[j].0
  }

  /** The keys written by the entries. */
  function KeysOf(year: string, entries: seq<(string, string)>): set<string>
  {
    set i | 0 <= i < |entries| :: KeyOf(year, entries[i].0)
  }

  /** The table holds exactly the keys of its entries. */
  lemma {:induction false} TableOfKeys(year: string, entries: seq<(string, string)>)
    ensures TableOf(year, entries).Keys == KeysOf(year, entries)
  {
    if entries != [] {
      var n := |entries| - 1;
      TableOfKeys(year, entries[..n]);
      assert KeysOf(year, entries) == KeysOf(year, entries[..n]) + {KeyOf(year, entries[n].0)} by {
        forall k | k in KeysOf(year, entries) ensures k in KeysOf(year, entries[..n]) + {KeyOf(year, entries[n].0)} {
          var i :| 0 <= i < |entries| && k == KeyOf(year, entries[i].0);
          if i < n { assert entries[..n][i] == entries[i]; }
        }
        forall k | k in KeysOf(year, entries[..n]) ensures k in KeysOf(year, entries) {
          var i :| 0 <= i < n && k == KeyOf(year, entries[..n][i].0);
          assert entries[..n][i] == entries[i];
        }
      }
    }
  }

  /** With distinct month-days, every entry keeps its own name and the table has one key
      per entry. */
  lemma {:induction false} TableOfEntries(year: string, entries: seq<(string, string)>)
    requires DistinctMonthDays(entries)
    ensures |TableOf(year, entries)| == |entries|
    ensures forall i :: 0 <= i < |entries| ==>
              KeyOf(year, entries[i].0) in TableOf(year, entries)
              && TableOf(year, entries)[KeyOf(year, entries[i].0)] == entries[i].1
  {
    if entries != [] {
      var n := |entries| - 1;
      var init := entries[..n];
      assert DistinctMonthDays(init) by {
        forall i, j | 0 <= i < j < |init| ensures init[i].0 != init[j].0 {
          assert init[i] == entries[i] && init[j] == entries[j];
        }
      }
      TableOfEntries(year, init);
      TableOfKeys(year, init);
      var key := KeyOf(year, entries[n].0);
      assert key !in TableOf(year, init) by {
        forall i | 0 <= i < |init| ensures key != KeyOf(year, init[i].0) {
          assert init[i] == entries[i];
          KeyInjective(year, init[i].0, entries[n].0);
        }
      }
      forall i | 0 <= i < n
        ensures KeyOf(year, entries[i].0) in TableOf(year, entries)
        ensures TableOf(year, entries)[KeyOf(year, entries[i].0)] == entries[i].1
      {
        assert init[i] == entries[i];
        KeyInjective(year, entries[i].0, entries[n].0);
      }
    }
  }

  lemma KeyShape(year: string, monthDay: string)
    ensures |KeyOf(year, monthDay)| == |year| + 1 + |monthDay|
    ensures KeyOf(year, monthDay)[..|year|] == year
  {
  }

  lemma CalendarEntriesDistinct()
    ensures DistinctMonthDays(CalendarEntries)
    ensures |CalendarEntries| == |BookingClosedDays| == 13
    ensures forall i :: 0 <= i < |CalendarEntries| ==> CalendarEntries[i].0 == BookingClosedDays[i]
    ensures forall i :: 0 <= i < |CalendarEntries| ==> |CalendarEntries[i].0| == 5
  {
  }

  /** The holiday endpoint lists 13 holidays for any year text. */
  lemma HolidayTableSize(year: string)
    ensures |HolidayTable(year)| == 13
  {
    CalendarEntriesDistinct();
    TableOfEntries(year, CalendarEntries);
  }

  /** The year text is not validated: every key starts with it verbatim and adds "-MM-DD". */
  lemma HolidayTableKeys(year: string)
    ensures forall k :: k in HolidayTable(year) ==> |k| == |year| + 6 && k[..|year|] == year
  {
    CalendarEntriesDistinct();
    TableOfKeys(year, CalendarEntries);
    forall k | k in HolidayTable(year) ensures |k| == |year| + 6 && k[..|year|] == year {
      var i :| 0 <= i < |CalendarEntries| && k == KeyOf(year, CalendarEntries[i].0);
      KeyShape(year, CalendarEntries[i].0);
    }
  }

  /** Each fixed month-day of the year carries its own name. */
  lemma HolidayTableNames(year: string)
    ensures forall i :: 0 <= i < |CalendarEntries| ==>
              KeyOf(year, CalendarEntries[i].0) in HolidayTable(year)
              && HolidayTable(year)[KeyOf(year, CalendarEntries[i].0)] == CalendarEntries[i].1
  {
    CalendarEntriesDistinct();
    TableOfEntries(year, CalendarEntries);
  }

  /** For a year without hyphens, the endpoint's keys are exactly the dates of that year
      that `isHoliday` rejects. */
  lemma HolidayTableMatchesIsHoliday(year: string, date: string)
    requires '-' !in year
    ensures date in HolidayTable(year) <==> IsHoliday(date) && YearOf(date) == year
  {
    CalendarEntriesDistinct();
    TableOfKeys(year, CalendarEntries);
    if date in HolidayTable(year) {
      var i :| 0 <= i < |CalendarEntries| && date == KeyOf(year, CalendarEntries[i].0);
      YearOfKey(year, CalendarEntries[i].0);
      assert date in BookingHolidays(year);
    }
    if IsHoliday(date) && YearOf(date) == year {
      var i :| 0 <= i < |BookingClosedDays| && date == KeyOf(year, BookingClosedDays[i]);
      assert date == KeyOf(year, CalendarEntries[i].0);
    }
  }

  /** `isHoliday` accepts exactly the dates "<year>-MM-DD" with a listed month-day and a
      hyphen-free year. */
  lemma IsHolidayExactly(year: string, monthDay: string)
    requires '-' !in year
    ensures IsHoliday(KeyOf(year, monthDay)) <==> monthDay in BookingClosedDays
  {
    YearOfKey(year, monthDay);
    if IsHoliday(KeyOf(year, monthDay)) {
      var i :| 0 <= i < |BookingClosedDays| && KeyOf(year, monthDay) == KeyOf(year, BookingClosedDays[i]);
      KeyInjective(year, monthDay, BookingClosedDays[i]);
    }
    if monthDay in BookingClosedDays {
      var i :| 0 <= i < |BookingClosedDays| && BookingClosedDays[i] == monthDay;
      assert KeyOf(year, monthDay) in BookingHolidays(year);
    }
  }

  /** The answer does not depend on the year. */
  lemma IsHolidayYearIndependent(y1: string, y2: string, monthDay: string)
    requires '-' !in y1 && '-' !in y2
    ensures IsHoliday(KeyOf(y1, monthDay)) == IsHoliday(KeyOf(y2, monthDay))
  {
    IsHolidayExactly(y1, monthDay);
    IsHolidayExactly(y2, monthDay);
  }

  /** The endpoint does not validate the year: when the year text holds a hyphen, its
      table still lists every holiday, but `isHoliday` rejects none of those dates. */
  lemma HyphenatedYearKeysAreNotHolidays(a: string, b: string, i: nat)
    requires '-' !in a && i < |CalendarEntries|
    ensures KeyOf(a + "-" + b, CalendarEntries[i].0) in HolidayTable(a + "-" + b)
    ensures !IsHoliday(KeyOf(a + "-" + b, CalendarEntries[i].0))
  {
    var year := a + "-" + b;
    var md := CalendarEntries[i].0;
    CalendarEntriesDistinct();
    TableOfEntries(year, CalendarEntries);
    var rest := b + "-" + md;
    assert KeyOf(year, md) == a + "-" + rest;
    IsHolidayExactly(a, rest);
    assert rest !in BookingClosedDays by {
      assert |rest| >= 6;
      forall j | 0 <= j < |BookingClosedDays| ensures |BookingClosedDays[j]| == 5 {
        assert BookingClosedDays[j] == CalendarEntries[j].0;
      }
    }
  }
}
