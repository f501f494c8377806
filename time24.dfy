/**
 * `convertTo24Hour`, the helper that turns a slot's display time ("4:30 PM")
 * into the "HH:MM:SS" text that is glued to a date before parsing. The booking
 * routes and the reminder worker carry identical copies; this is the one model
 * of both.
 */
module TimeFormat {
  import opened Wrappers
  import opened JsText

  /** The hour after the AM/PM adjustment: `hours += 12` for PM unless it is 12,
      `hours = 0` for 12 AM; any other modifier leaves it alone. None is NaN. */
  function AdjustHours(hours: Option<int>, modifier: string): Option<int>
  {
    var afterPm := if modifier == "PM" && hours != Some(12) then
                     (if hours.Some? then Some(hours.value + 12) else None)
                   else hours;
    if modifier == "AM" && afterPm == Some(12) then Some(0) else afterPm
  }

  /** `String(hours).padStart(2, "0")`, with NaN printed as "NaN". */
  function HourText(hours: Option<int>): string
  {
    PadStart2(if hours.None? then "NaN" else IntToString(hours.value))
  }

  /** `convertTo24Hour(timeStr)`. Missing minutes print as "undefined", as a
      template literal prints an absent array element. */
  function To24Hour(timeStr: string): string
  {
    if timeStr == "" then "00:00:00"
    else
      var parts := Split(Trim(timeStr), ' ');
      if |parts| == 1 then parts[0] + ":00"
      else
        var hm := Split(parts[0], ':');
        var minutes := if |hm| >= 2 then hm[1] else "undefined";
        HourText(AdjustHours(ParseInt(hm[0]), Upper(parts[1]))) + ":" + minutes + ":00"
  }

  /** The 24-hour clock reading of hour `h` (1..12) of the morning or afternoon,
      stated independently of the code: the hour modulo 12, plus 12 after noon. */
  function Hour24(h: int, pm: bool): (r: int)
    requires 1 <= h <= 12
    ensures 0 <= r < 24
    ensures r % 12 == h % 12
    ensures r >= 12 <==> pm
  {
    h % 12 + (if pm then 12 else 0)
  }

  /** An "AM"/"PM" marker in any letter case. */
  predicate IsMeridiem(m: string)
  {
    Upper(m) == "AM" || Upper(m) == "PM"
  }

  /** Two decimal digits for an hour of the day. */
  function TwoDigits(n: int): (s: string)
    requires 0 <= n < 100
    ensures |s| == 2 && AllDigits(s)
    ensures DigitValue(s[0]) * 10 + DigitValue(s[1]) == n
  {
    [DigitChar(n / 10), DigitChar(n % 10)]
  }

  /** The code's adjustment agrees with the 24-hour reading for every hour 1..12:
      12 AM is 0, 12 PM is 12, other PM hours gain 12, other AM hours stay. */
  lemma AdjustHoursIsHour24(h: int, m: string)
    requires 1 <= h <= 12 && IsMeridiem(m)
    ensures AdjustHours(Some(h), Upper(m)) == Some(Hour24(h, Upper(m) == "PM"))
  {
  }

  /** `String(h).padStart(2, "0")` is the two-digit form of every hour of the day. */
  lemma HourTextIsTwoDigits(h: int)
    requires 0 <= h < 24
    ensures HourText(Some(h)) == TwoDigits(h)
  {
    var s := NatToString(h);
    if h < 10 {
      assert s == [DigitChar(h)];
    } else {
      assert s == NatToString(h / 10) + [DigitChar(h % 10)];
      assert NatToString(h / 10) == [DigitChar(h / 10)];
    }
  }

  /** A well-formed 12-hour time "hh:mm AM" or "hh:mm PM" (any letter case, hours
      1..12 with or without a leading zero, minutes copied verbatim) becomes its
      zero-padded 24-hour reading followed by ":00". */
  lemma To24HourOfTwelveHour(hh: string, mm: string, m: string)
    requires hh != [] && AllDigits(hh) && 1 <= DigitsValue(hh) <= 12
    requires forall i :: 0 <= i < |mm| ==> mm[i] != ':' && mm[i] != ' '
    requires IsMeridiem(m) && |m| == 2
    ensures To24Hour(hh + ":" + mm + " " + m)
         == TwoDigits(Hour24(DigitsValue(hh), Upper(m) == "PM")) + ":" + mm + ":00"
  {
    var time := hh + ":" + mm;
    var s := time + " " + m;
    assert ' ' !in time by {
      forall i | 0 <= i < |time| ensures time[i] != ' ' {
        if i < |hh| { assert time[i] == hh[i]; } else if i > |hh| { assert time[i] == mm[i - |hh| - 1]; }
      }
    }
    assert ' ' !in m by {
      forall i | 0 <= i < |m| ensures m[i] != ' ' {
        UpperSpec(m);
        assert UpperChar(m[i]) == Upper(m)[i];
      }
    }
    assert !IsSpace(s[0]) by { assert s[0] == hh[0]; }
    assert !IsSpace(s[|s| - 1]) by {
      assert s[|s| - 1] == m[1];
      UpperSpec(m);
      assert UpperChar(m[1]) == Upper(m)[1];
    }
    TrimKeeps(s);
    SplitAtFirst(time, m, ' ');
    SplitWithout(m, ' ');
    assert Split(s, ' ') == [time, m];
    assert ':' !in hh by {
      forall i | 0 <= i < |hh| ensures hh[i] != ':' { assert IsDigit(hh[i]); }
    }
    assert time == hh + [':'] + mm;
    SplitAtFirst(hh, mm, ':');
    SplitWithout(mm, ':');
    assert Split(time, ':') == [hh, mm];
    ParseIntDigits(hh, []);
    assert hh + [] == hh;
    AdjustHoursIsHour24(DigitsValue(hh), m);
    HourTextIsTwoDigits(Hour24(DigitsValue(hh), Upper(m) == "PM"));
  }

  /** An empty time is midnight, and a single token (already 24-hour, "16:30")
      only gains ":00". */
  lemma To24HourShortForms(timeStr: string)
    requires timeStr != "" ==> ' ' !in Trim(timeStr)
    ensures To24Hour(timeStr) == if timeStr == "" then "00:00:00" else Trim(timeStr) + ":00"
  {
    if timeStr != "" {
      SplitWithout(Trim(timeStr), ' ');
    }
  }
}
