/**
 * The read-only availability grid: a cell is highlighted when some slot of
 * the `availability` prop has its day and hour, and each row is labelled
 * with its hour on a 12-hour clock.
 */
module SchedulerGrid {
  import opened Js
  import opened Slots

  /** `availability.some((slot) => slot.day === day && slot.hour === hour)`. */
  function IsAvailable(availability: seq<Slot>, day: int, hour: int): (r: bool)
    ensures r <==> exists i :: 0 <= i < |availability| && availability[i] == Slot(day, hour)
  {
    if |availability| == 0 then false
    else availability[0] == Slot(day, hour) || IsAvailable(availability[1..], day, hour)
  }

  /** Nothing is highlighted for an empty list. */
  lemma NothingAvailableWhenEmpty(day: int, hour: int)
    ensures !IsAvailable([], day, hour)
  {
  }

  /** Highlighting depends only on which slots occur: not on their order, nor on repeats. */
  lemma IsAvailableBySlotSet(a: seq<Slot>, b: seq<Slot>, day: int, hour: int)
    requires forall s :: s in a <==> s in b
    ensures IsAvailable(a, day, hour) == IsAvailable(b, day, hour)
  {
    var x := Slot(day, hour);
    if IsAvailable(a, day, hour) {
      var i :| 0 <= i < |a| && a[i] == x;
      assert x in b;
    }
    if IsAvailable(b, day, hour) {
      var i :| 0 <= i < |b| && b[i] == x;
      assert x in a;
    }
  }

  /** `hour === 12 ? "12 PM" : hour > 12 ? `${hour - 12} PM` : `${hour} AM``. */
  function HourLabel(hour: int): string
  {
    if hour == 12 then "12 PM"
    else if hour > 12 then IntToString(hour - 12) + " PM"
    else IntToString(hour) + " AM"
  }

  /** The hour of a 12-hour clock face, 12 for noon and midnight. */
  function ClockHour(hour: int): int
  {
    if hour % 12 == 0 then 12 else hour % 12
  }

  /** "AM" before noon, "PM" from noon on. */
  function Meridiem(hour: int): string
  {
    if hour < 12 then "AM" else "PM"
  }

  /**
   * On every row of the grid (the hours 8..19, see `Slots.HoursAre`) the
   * label is the 12-hour clock reading: an hour of 1..12, a space, and
   * "AM" before noon or "PM" from noon on.
   */
  lemma GridLabelIsClockReading(hour: int)
    requires 8 <= hour <= 19
    ensures HourLabel(hour) == IntToString(ClockHour(hour)) + " " + Meridiem(hour)
    ensures 1 <= ClockHour(hour) <= 12
    ensures ClockHour(hour) == if hour <= 12 then hour else hour - 12
  {
    if hour == 12 {
      assert NatToString(12) == NatToString(1) + [DigitChar(2)];
      assert IntToString(12) == "12";
    } else if hour > 12 {
      assert hour % 12 == hour - 12;
    } else {
      assert hour % 12 == hour;
    }
  }

  /**
   * For every hour, the label is two space-separated fields: decimal text that
   * reads back as the hour (less 12 after noon) and "PM" from noon on, "AM"
   * before.
   */
  lemma HourLabelReadsBack(hour: int)
    ensures var parts := Split(HourLabel(hour), ' ');
      |parts| == 2
      && ParseInteger(parts[0]) == Some(if hour > 12 then hour - 12 else hour)
      && parts[1] == Meridiem(hour)
  {
    var n := if hour > 12 then hour - 12 else hour;
    var m := Meridiem(hour);
    if hour == 12 {
      assert NatToString(12) == NatToString(1) + [DigitChar(2)];
      assert IntToString(12) == "12";
    }
    assert HourLabel(hour) == IntToString(n) + [' '] + m;
    ParseIntToString(n);
    SplitAfterField(IntToString(n), ' ', m);
    assert Split(m, ' ') == [m];
  }

  /** The twelve rows carry twelve different labels. */
  lemma GridLabelsDistinct(h1: int, h2: int)
    requires 8 <= h1 <= 19 && 8 <= h2 <= 19
    requires HourLabel(h1) == HourLabel(h2)
    ensures h1 == h2
  {
    GridLabelIsClockReading(h1);
    GridLabelIsClockReading(h2);
    var a, b := IntToString(ClockHour(h1)), IntToString(ClockHour(h2));
    ParseIntToString(ClockHour(h1));
    ParseIntToString(ClockHour(h2));
    SameFirstField(a, Meridiem(h1), b, Meridiem(h2), ' ');
    IntToStringInjective(ClockHour(h1), ClockHour(h2));
    assert "AM"[0] != "PM"[0];
  }
}
