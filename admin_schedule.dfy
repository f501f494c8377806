/**
 * routes/admin.schedule.js: the schedule calendar read from the day rows alone,
 * the slot listing, opening and closing a date, the per-date capacity, adding
 * a time slot and removing a free one.
 */
module AdminSchedule {
  import opened Tables
  import opened SlotListing

  /** The calendar's mapping of one day row: closed, or a zero day capacity, shows no slots. */
  function StatusOf(d: Day): (s: DayStatus)
    ensures s == NoSlots <==> d.closed || d.total == 0
    ensures s != Closed
  {
    if d.closed || d.total == 0 then NoSlots else Available
  }

  /** The `rows.forEach` over the query's rows: the dates of the doctor's day rows. */
  method Calendar(t: Tables, doctor: DoctorId, dates: seq<string>) returns (cal: map<string, DayStatus>)
    requires (set i | 0 <= i < |dates| :: dates[i]) == DoctorDates(t.days, doctor)
    ensures cal.Keys == DoctorDates(t.days, doctor)
    ensures forall d :: d in cal ==> (doctor, d) in t.days && cal[d] == StatusOf(t.days[(doctor, d)])
  {
    cal := map[];
    var i := 0;
    while i < |dates|
      invariant 0 <= i <= |dates|
      invariant cal.Keys == set k | 0 <= k < i :: dates[k]
      invariant forall d :: d in cal ==> (doctor, d) in t.days && cal[d] == StatusOf(t.days[(doctor, d)])
    {
      assert dates[i] in DoctorDates(t.days, doctor);
      cal := cal[dates[i] := StatusOf(t.days[(doctor, dates[i])])];
      i := i + 1;
    }
  }

  /** The schedule calendar reads only the day row: a day whose slots are all booked still
      shows as available while its day capacity is not zero. */
  lemma CalendarIgnoresSlots(t: Tables, doctor: DoctorId, date: string)
    requires (doctor, date) in t.days
    requires !t.days[(doctor, date)].closed && t.days[(doctor, date)].total != 0
    ensures StatusOf(t.days[(doctor, date)]) == Available
  {
  }

  datatype SlotRow = SlotRow(id: SlotId, time: string, total: int, booked: int)

  /** GET /:doctorId/:date: the slots of the date ordered by time value. */
  function SlotRows(t: Tables, doctor: DoctorId, date: string): (rows: seq<SlotRow>)
    ensures var ids := SlotsOn(t, doctor, date);
      && |rows| == |ids|
      && forall i :: 0 <= i < |rows| ==>
           rows[i] == SlotRow(ids[i], t.slots[ids[i]].time, t.slots[ids[i]].total, t.slots[ids[i]].booked)
    ensures forall i, j :: 0 <= i < j < |rows| ==>
              t.slots[rows[i].id].timeValue <= t.slots[rows[j].id].timeValue
  {
    var ids := SlotsOn(t, doctor, date);
    seq(|ids|, i requires 0 <= i < |ids| =>
      SlotRow(ids[i], t.slots[ids[i]].time, t.slots[ids[i]].total, t.slots[ids[i]].booked))
  }

  /** PUT /:doctorId/:date/status: INSERT ... ON DUPLICATE KEY UPDATE is_closed. */
  function SetClosedStep(t: Tables, doctor: DoctorId, date: string, closed: bool): Tables
  {
    var key := (doctor, date);
    var day := if key in t.days then t.days[key] else NewDay;
    t.(days := t.days[key := day.(closed := closed)])
  }

  /** PUT /:doctorId/:date/slots: INSERT ... ON DUPLICATE KEY UPDATE total_slots. */
  function SetDayTotalStep(t: Tables, doctor: DoctorId, date: string, total: int): Tables
  {
    var key := (doctor, date);
    var day := if key in t.days then t.days[key] else NewDay;
    t.(days := t.days[key := day.(total := total)])
  }

  /** POST /:doctorId/:date/time: a plain INSERT, with no check for an existing time. */
  function InsertSlotStep(t: Tables, doctor: DoctorId, date: string, time: string, timeValue: int, total: int): Tables
  {
    t.(slots := t.slots[t.nextSlot := Slot(doctor, date, time, timeValue, total, 0)], nextSlot := t.nextSlot + 1)
  }

  /** DELETE /time/:slotId: refused while the row holds bookings; a missing row is a no-op
      that still reports success. */
  function DeleteFreeSlotStep(t: Tables, id: SlotId): Step
  {
    if id in t.slots && t.slots[id].booked > 0 then Step(t, Fail(HasBookings))
    else Step(t.(slots := t.slots - {id}), Ok)
  }

  method SetClosed(db: Database, doctor: DoctorId, date: string, closed: bool)
    requires db.Valid()
    modifies db
    ensures db.Valid()
    ensures db.Snapshot() == SetClosedStep(old(db.Snapshot()), doctor, date, closed)
  {
    var key := (doctor, date);
    if key in db.days {
      db.days := db.days[key := db.days[key].(closed := closed)];
    } else {
      db.days := db.days[key := NewDay.(closed := closed)];
    }
  }

  method SetDayTotal(db: Database, doctor: DoctorId, date: string, total: int)
    requires db.Valid()
    modifies db
    ensures db.Valid()
    ensures db.Snapshot() == SetDayTotalStep(old(db.Snapshot()), doctor, date, total)
  {
    var key := (doctor, date);
    if key in db.days {
      db.days := db.days[key := db.days[key].(total := total)];
    } else {
      db.days := db.days[key := NewDay.(total := total)];
    }
  }

  method InsertSlot(db: Database, doctor: DoctorId, date: string, time: string, timeValue: int, total: int)
    returns (id: SlotId)
    requires db.Valid()
    modifies db
    ensures db.Valid()
    ensures id == old(db.nextSlot) && id !in old(db.slots)
    ensures db.Snapshot() == InsertSlotStep(old(db.Snapshot()), doctor, date, time, timeValue, total)
  {
    id := db.nextSlot;
    db.slots := db.slots[id := Slot(doctor, date, time, timeValue, total, 0)];
    db.nextSlot := db.nextSlot + 1;
  }

  method DeleteFreeSlot(db: Database, id: SlotId) returns (out: Outcome)
    requires db.Valid()
    modifies db
    ensures db.Valid()
    ensures Step(db.Snapshot(), out) == DeleteFreeSlotStep(old(db.Snapshot()), id)
  {
    if id in db.slots && db.slots[id].booked > 0 {
      return Fail(HasBookings);
    }
    db.slots := db.slots - {id};
    out := Ok;
  }

  // ----- properties -----

  /** Opening or closing a date sets only that day's closed flag, creating the row with its
      defaults when absent, and leaves every other row and table as it was. */
  lemma SetClosedEffect(t: Tables, doctor: DoctorId, date: string, closed: bool)
    ensures var t' := SetClosedStep(t, doctor, date, closed); var key := (doctor, date);
      && t'.days.Keys == t.days.Keys + {key}
      && t'.days[key].closed == closed
      && (key in t.days ==> t'.days[key] == t.days[key].(closed := closed))
      && (key !in t.days ==> t'.days[key] == Day(closed, 0, 0, false))
      && (forall k :: k in t.days && k != key ==> t'.days[k] == t.days[k])
      && t'.slots == t.slots && t'.appts == t.appts
  {
  }

  /** The per-date capacity upsert sets only that day's total. */
  lemma SetDayTotalEffect(t: Tables, doctor: DoctorId, date: string, total: int)
    ensures var t' := SetDayTotalStep(t, doctor, date, total); var key := (doctor, date);
      && t'.days.Keys == t.days.Keys + {key}
      && t'.days[key].total == total
      && (key in t.days ==> t'.days[key] == t.days[key].(total := total))
      && (key !in t.days ==> t'.days[key] == Day(false, total, 0, false))
      && (forall k :: k in t.days && k != key ==> t'.days[k] == t.days[k])
      && t'.slots == t.slots && t'.appts == t.appts
  {
  }

  /** Adding the same time twice gives two separate rows, both with no bookings. */
  lemma InsertSlotDoesNotMerge(t: Tables, doctor: DoctorId, date: string, time: string, timeValue: int, total: int)
    requires WellFormed(t)
    ensures var t2 := InsertSlotStep(InsertSlotStep(t, doctor, date, time, timeValue, total), doctor, date, time, timeValue, total);
      && t.nextSlot in t2.slots && t.nextSlot + 1 in t2.slots
      && t2.slots[t.nextSlot] == t2.slots[t.nextSlot + 1] == Slot(doctor, date, time, timeValue, total, 0)
      && t2.slots.Keys == t.slots.Keys + {t.nextSlot, t.nextSlot + 1}
      && WellFormed(t2)
  {
  }

  /** A new row keeps `booked <= total` only when its capacity is not negative; the insert
      itself does not check. */
  lemma InsertSlotCapacity(t: Tables, doctor: DoctorId, date: string, time: string, timeValue: int, total: int)
    requires WellFormed(t) && WithinCapacity(t.slots)
    ensures WithinCapacity(InsertSlotStep(t, doctor, date, time, timeValue, total).slots) <==> total >= 0
  {
    assert InsertSlotStep(t, doctor, date, time, timeValue, total).slots[t.nextSlot].total == total;
  }

  /** The guarded delete is refused exactly when the row exists with bookings; otherwise the
      row is gone (and a missing row changes nothing). */
  lemma DeleteFreeSlotIff(t: Tables, id: SlotId)
    ensures DeleteFreeSlotStep(t, id).outcome == Fail(HasBookings) <==> id in t.slots && t.slots[id].booked > 0
    ensures DeleteFreeSlotStep(t, id).outcome.Fail? ==> DeleteFreeSlotStep(t, id).tables == t
    ensures DeleteFreeSlotStep(t, id).outcome == Ok ==>
      var t' := DeleteFreeSlotStep(t, id).tables;
      id !in t'.slots && t'.slots.Keys == t.slots.Keys - {id}
      && (forall k :: k in t'.slots ==> t'.slots[k] == t.slots[k])
    ensures id !in t.slots ==> DeleteFreeSlotStep(t, id) == Step(t, Ok)
  {
  }
}
