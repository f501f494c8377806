/**
 * routes/availability.js: what a patient sees. The calendar lists the doctor's
 * dates from today on, each `available` when its slots have any capacity left
 * in total; the slot listing of a date refuses dates before today.
 */
module PatientAvailability {
  import opened Clocks
  import opened Tables
  import opened SlotListing

  /** SUM(total_slots - booked_slots) over the rows below `bound` that match `f`. */
  function RemainingSum(slots: map<SlotId, Slot>, bound: nat, f: Filter): int
  {
    if bound == 0 then 0
    else
      RemainingSum(slots, bound - 1, f)
      + (if bound - 1 in slots && Matches(f, slots[bound - 1])
         then slots[bound - 1].total - slots[bound - 1].booked else 0)
  }

  /** The CASE of the calendar query: no slot rows, or no capacity left in total, shows no
      slots. The closed flag of the day row is not consulted. */
  function DayStatusOf(t: Tables, doctor: DoctorId, date: string): DayStatus
  {
    if |MatchingIds(t.slots, t.nextSlot, OnDate(doctor, date))| == 0 then NoSlots
    else if RemainingSum(t.slots, t.nextSlot, OnDate(doctor, date)) > 0 then Available
    else NoSlots
  }

  /** GET /:doctorId/availability: the doctor's dates from today on (`DATE(a.date) >= CURDATE()`),
      one entry per day row. */
  function CalendarOf(t: Tables, c: Clock, doctor: DoctorId): (cal: map<string, DayStatus>)
    ensures forall d :: d in cal <==> (doctor, d) in t.days && !BeforeToday(c.parse(d), c.now)
    ensures forall d :: d in cal ==> cal[d] == DayStatusOf(t, doctor, d)
  {
    map d | d in DoctorDates(t.days, doctor) && !BeforeToday(c.parse(d), c.now) :: DayStatusOf(t, doctor, d)
  }

  /** While every slot of the date is within its capacity, the date is available exactly
      when one of its slots has room. */
  lemma DayStatusIff(t: Tables, doctor: DoctorId, date: string)
    requires WellFormed(t) && WithinCapacity(t.slots)
    ensures DayStatusOf(t, doctor, date) == Available <==>
              exists id :: id in t.slots && Matches(OnDate(doctor, date), t.slots[id])
                           && t.slots[id].booked < t.slots[id].total
  {
    RemainingPositive(t.slots, t.nextSlot, OnDate(doctor, date));
    if exists id :: id in t.slots && Matches(OnDate(doctor, date), t.slots[id]) && t.slots[id].booked < t.slots[id].total {
      var id :| id in t.slots && Matches(OnDate(doctor, date), t.slots[id]) && t.slots[id].booked < t.slots[id].total;
      assert id in MatchingIds(t.slots, t.nextSlot, OnDate(doctor, date));
    }
  }

  lemma {:induction false} RemainingPositive(slots: map<SlotId, Slot>, bound: nat, f: Filter)
    requires WithinCapacity(slots)
    ensures RemainingSum(slots, bound, f) >= 0
    ensures RemainingSum(slots, bound, f) > 0 <==>
              exists id :: id < bound && id in slots && Matches(f, slots[id]) && slots[id].booked < slots[id].total
  {
    if bound > 0 {
      RemainingPositive(slots, bound - 1, f);
    }
  }

  /** Without the capacity invariant the sum misleads: an over-booked slot can cancel out
      another slot's free place, and the date shows no slots although one can be booked. */
  lemma OverbookedSlotHidesFreeSlot(t: Tables, doctor: DoctorId, date: string, time1: string, time2: string)
    requires t.nextSlot == 2
    requires t.slots == map[0 := Slot(doctor, date, time1, 1, 1, 2), 1 := Slot(doctor, date, time2, 2, 2, 1)]
    ensures t.slots[1].booked < t.slots[1].total
    ensures DayStatusOf(t, doctor, date) == NoSlots
  {
    var f := OnDate(doctor, date);
    assert RemainingSum(t.slots, 1, f) == -1;
    assert RemainingSum(t.slots, 2, f) == 0;
    assert 0 in MatchingIds(t.slots, 2, f);
  }

  /** The patient calendar does not read the closed flag: closing a date does not change
      what the patient calendar shows for it. */
  lemma ClosedFlagIgnored(t: Tables, c: Clock, doctor: DoctorId, date: string, closed: bool)
    requires (doctor, date) in t.days
    ensures var key := (doctor, date);
      CalendarOf(t.(days := t.days[key := t.days[key].(closed := closed)]), c, doctor) == CalendarOf(t, c, doctor)
  {
    var key := (doctor, date);
    var t' := t.(days := t.days[key := t.days[key].(closed := closed)]);
    assert DoctorDates(t'.days, doctor) == DoctorDates(t.days, doctor) by {
      assert t'.days.Keys == t.days.Keys;
    }
  }

  /** One entry of the patient slot listing. */
  datatype OpenSlot = OpenSlot(time: string, remaining: int, total: int)

  /** GET /:doctorId/availability/:date: `(success, slots)`. A date before today is refused
      with no slots; otherwise every slot of the date, ordered by time value, with its
      remaining capacity. */
  function SlotsFor(t: Tables, c: Clock, doctor: DoctorId, date: string): (r: (bool, seq<OpenSlot>))
    ensures BeforeToday(c.parse(date), c.now) <==> !r.0
    ensures !r.0 ==> r.1 == []
    ensures r.0 ==> var ids := SlotsOn(t, doctor, date);
      && |r.1| == |ids|
      && forall i :: 0 <= i < |ids| ==>
           r.1[i] == OpenSlot(t.slots[ids[i]].time, t.slots[ids[i]].total - t.slots[ids[i]].booked, t.slots[ids[i]].total)
  {
    if BeforeToday(c.parse(date), c.now) then (false, [])
    else
      var ids := SlotsOn(t, doctor, date);
      (true, seq(|ids|, i requires 0 <= i < |ids| =>
        OpenSlot(t.slots[ids[i]].time, t.slots[ids[i]].total - t.slots[ids[i]].booked, t.slots[ids[i]].total)))
  }

  /** A date the listing refuses lies before the current instant, on an earlier calendar day. */
  lemma RefusedDateIsPast(t: Tables, c: Clock, doctor: DoctorId, date: string)
    requires !SlotsFor(t, c, doctor, date).0
    ensures Before(c.parse(date), c.now)
    ensures c.parse(date).minute / MinutesPerDay < c.now / MinutesPerDay
  {
    BeforeTodayMeansBeforeNow(c.parse(date), c.now);
  }
}
