/**
 * A bookable hour of the week, and the grid both client components draw:
 * seven day columns (0 is Monday) and the twelve hours 8..19.
 */
module Slots {

  datatype Slot = Slot(day: int, hour: int)

  /** `Array.from({ length: 12 }, (_, i) => i + 8)`. */
  const Hours: seq<int> := [8, 9, 10, 11, 12, 13, 14, 15, 16, 17, 18, 19]

  /** `[...Array(7)]`: the day columns 0..6. */
  const DayCount: nat := 7

  /** The slot is a cell the grid draws: a day column and one of the `Hours`. */
  predicate OnGrid(s: Slot)
  {
    0 <= s.day < DayCount && 8 <= s.hour <= 19
  }

  /** The hours are 8 AM to 7 PM: twelve consecutive values, 8 first. */
  lemma HoursAre()
    ensures |Hours| == 12
    ensures forall i :: 0 <= i < |Hours| ==> Hours[i] == 8 + i
    ensures forall h :: h in Hours <==> 8 <= h <= 19
  {
    forall h | 8 <= h <= 19
      ensures h in Hours
    {
      assert Hours[h - 8] == h;
    }
  }

  /** The cells of the grid are the day columns crossed with the `Hours`. */
  lemma OnGridIsDayAndHour(s: Slot)
    ensures OnGrid(s) <==> 0 <= s.day < DayCount && s.hour in Hours
  {
    HoursAre();
  }
}
