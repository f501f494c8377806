/**
 * routes/admin.availability.js: the admin calendar of one doctor, adding and
 * removing dates, the per-date slot listing, adding a slot (or bumping the
 * capacity of the row with the same time value), changing a slot's capacity
 * and removing a slot.
 */
module AdminAvailability {
  import opened Wrappers
  import opened Tables
  import opened SlotListing

  /** The CASE of the calendar query for one day row: closed wins, then any slot of that
      date with room makes the date available. */
  function DayStatusOf(t: Tables, doctor: DoctorId, date: string): DayStatus
    requires (doctor, date) in t.days
  {
    if t.days[(doctor, date)].closed then Closed
    else if CountWhere(t.slots, t.nextSlot, OnDate(doctor, date), true) > 0 then Available
    else NoSlots
  }

  /** A closed day is closed; otherwise a day is available exactly when one of its slots has
      room, and shows no slots otherwise, which includes a day with no slot rows at all. */
  lemma DayStatusIff(t: Tables, doctor: DoctorId, date: string)
    requires WellFormed(t) && (doctor, date) in t.days
    ensures DayStatusOf(t, doctor, date) == Closed <==> t.days[(doctor, date)].closed
    ensures DayStatusOf(t, doctor, date) == Available <==>
              !t.days[(doctor, date)].closed
              && exists id :: id in t.slots && Matches(OnDate(doctor, date), t.slots[id])
                              && t.slots[id].booked < t.slots[id].total
    ensures (forall id :: id in t.slots ==> !Matches(OnDate(doctor, date), t.slots[id])) ==>
              DayStatusOf(t, doctor, date) != Available
  {
    CountWherePositive(t.slots, t.nextSlot, OnDate(doctor, date), true);
    if exists id :: id in t.slots && Matches(OnDate(doctor, date), t.slots[id]) && t.slots[id].booked < t.slots[id].total {
      var id :| id in t.slots && Matches(OnDate(doctor, date), t.slots[id]) && t.slots[id].booked < t.slots[id].total;
      assert Counted(t.slots[id], OnDate(doctor, date), true);
    }
  }

  /** The `rows.forEach` that fills the calendar from the query's rows: the dates of the
      doctor's day rows, one row each. */
  method Calendar(t: Tables, doctor: DoctorId, dates: seq<string>) returns (cal: map<string, DayStatus>)
    requires (set i | 0 <= i < |dates| :: dates[i]) == DoctorDates(t.days, doctor)
    ensures cal.Keys == DoctorDates(t.days, doctor)
    ensures forall d :: d in cal ==> (doctor, d) in t.days && cal[d] == DayStatusOf(t, doctor, d)
  {
    cal := map[];
    var i := 0;
    while i < |dates|
      invariant 0 <= i <= |dates|
      invariant cal.Keys == set k | 0 <= k < i :: dates[k]
      invariant forall d :: d in cal ==> (doctor, d) in t.days && cal[d] == DayStatusOf(t, doctor, d)
    {
      assert dates[i] in DoctorDates(t.days, doctor);
      cal := cal[dates[i] := DayStatusOf(t, doctor, dates[i])];
      i := i + 1;
    }
  }

  /** One row of the admin slot listing. */
  datatype SlotRow = SlotRow(id: SlotId, time: string, total: int, booked: int, remaining: int)

  /** GET /:doctorId/:date: the slots of the date ordered by time value, each with its
      remaining capacity. */
  function SlotRows(t: Tables, doctor: DoctorId, date: string): (rows: seq<SlotRow>)
    ensures var ids := SlotsOn(t, doctor, date);
      && |rows| == |ids|
      && forall i :: 0 <= i < |rows| ==>
           && rows[i].id == ids[i]
           && rows[i].time == t.slots[ids[i]].time
           && rows[i].total == t.slots[ids[i]].total
           && rows[i].booked == t.slots[ids[i]].booked
           && rows[i].remaining == rows[i].total - rows[i].booked
    ensures forall i, j :: 0 <= i < j < |rows| ==>
              t.slots[rows[i].id].timeValue <= t.slots[rows[j].id].timeValue
  {
    var ids := SlotsOn(t, doctor, date);
    seq(|ids|, i requires 0 <= i < |ids| =>
      var s := t.slots[ids[i]];
      SlotRow(ids[i], s.time, s.total, s.booked, s.total - s.booked))
  }

  /** POST /:doctorId/date: INSERT IGNORE of the day row; a missing date is refused. */
  function AddDateStep(t: Tables, doctor: DoctorId, date: string): Step
  {
    if date == "" then Step(t, Fail(DateRequired))
    else if (doctor, date) in t.days then Step(t, Ok)
    else Step(t.(days := t.days[(doctor, date) := NewDay]), Ok)
  }

  /** DELETE /:doctorId/date: refused while any slot of the date holds a booking; otherwise
      the date's slot rows and its day row go. */
  function DeleteDateStep(t: Tables, doctor: DoctorId, date: string): Step
  {
    if CountWhere(t.slots, t.nextSlot, OnDate(doctor, date), false) > 0 then Step(t, Fail(HasBookings))
    else
      Step(t.(slots := map id | id in t.slots && !Matches(OnDate(doctor, date), t.slots[id]) :: t.slots[id],
              days := t.days - {(doctor, date)}),
           Ok)
  }

  /** POST /:doctorId/:date/slot: a falsy time, time value or capacity is refused; a row with
      the same time value gains the capacity; otherwise a new row with no bookings is added. */
  function AddSlotStep(t: Tables, doctor: DoctorId, date: string, time: string, timeValue: int, total: int): Step
  {
    if time == "" || timeValue == 0 || total == 0 then Step(t, Fail(MissingFields))
    else
      match FirstWhere(t.slots, t.nextSlot, AtTimeValue(doctor, date, timeValue))
      case Some(s) => Step(t.(slots := t.slots[s := t.slots[s].(total := t.slots[s].total + total)]), Ok)
      case None =>
        Step(t.(slots := t.slots[t.nextSlot := Slot(doctor, date, time, timeValue, total, 0)],
                nextSlot := t.nextSlot + 1),
             Ok)
  }

  /** PUT /slot/:slotId as written: the guard compares the row's current capacity with its
      bookings, not the new capacity. */
  function UpdateCapacityStep(t: Tables, id: SlotId, total: int): Step
  {
    if id in t.slots && t.slots[id].total >= t.slots[id].booked then
      Step(t.(slots := t.slots[id := t.slots[id].(total := total)]), Ok)
    else Step(t, Fail(BelowBooked))
  }

  /** PUT /slot/:slotId as its message ("Cannot reduce below booked slots") intends: the new
      capacity must cover the bookings. */
  function UpdateCapacityIntendedStep(t: Tables, id: SlotId, total: int): Step
  {
    if id in t.slots && total >= t.slots[id].booked then
      Step(t.(slots := t.slots[id := t.slots[id].(total := total)]), Ok)
    else Step(t, Fail(BelowBooked))
  }

  /** DELETE /slot/:slotId: a missing row and a row with bookings are refused. */
  function DeleteSlotStep(t: Tables, id: SlotId): Step
  {
    if id !in t.slots then Step(t, Fail(NotFound))
    else if t.slots[id].booked > 0 then Step(t, Fail(HasBookings))
    else Step(t.(slots := t.slots - {id}), Ok)
  }

  method AddDate(db: Database, doctor: DoctorId, date: string) returns (out: Outcome)
    requires db.Valid()
    modifies db
    ensures db.Valid()
    ensures Step(db.Snapshot(), out) == AddDateStep(old(db.Snapshot()), doctor, date)
  {
    if date == "" {
      return Fail(DateRequired);
    }
    if (doctor, date) !in db.days {
      db.days := db.days[(doctor, date) := NewDay];
    }
    out := Ok;
  }

  method DeleteDate(db: Database, doctor: DoctorId, date: string) returns (out: Outcome)
    requires db.Valid()
    modifies db
    ensures db.Valid()
    ensures Step(db.Snapshot(), out) == DeleteDateStep(old(db.Snapshot()), doctor, date)
  {
    var booked := CountWhere(db.slots, db.nextSlot, OnDate(doctor, date), false);
    if booked > 0 {
      return Fail(HasBookings);
    }
    db.slots := map id | id in db.slots && !Matches(OnDate(doctor, date), db.slots[id]) :: db.slots[id];
    db.days := db.days - {(doctor, date)};
    out := Ok;
  }

  method AddSlot(db: Database, doctor: DoctorId, date: string, time: string, timeValue: int, total: int)
    returns (out: Outcome)
    requires db.Valid()
    modifies db
    ensures db.Valid()
    ensures Step(db.Snapshot(), out) == AddSlotStep(old(db.Snapshot()), doctor, date, time, timeValue, total)
  {
    if time == "" || timeValue == 0 || total == 0 {
      return Fail(MissingFields);
    }
    var existing := FirstWhere(db.slots, db.nextSlot, AtTimeValue(doctor, date, timeValue));
    if existing.Some? {
      var s := existing.value;
      db.slots := db.slots[s := db.slots[s].(total := db.slots[s].total + total)];
    } else {
      db.slots := db.slots[db.nextSlot := Slot(doctor, date, time, timeValue, total, 0)];
      db.nextSlot := db.nextSlot + 1;
    }
    out := Ok;
  }

  method UpdateCapacity(db: Database, id: SlotId, total: int) returns (out: Outcome)
    requires db.Valid()
    modifies db
    ensures db.Valid()
    ensures Step(db.Snapshot(), out) == UpdateCapacityStep(old(db.Snapshot()), id, total)
  {
    if id in db.slots && db.slots[id].total >= db.slots[id].booked {
      db.slots := db.slots[id := db.slots[id].(total := total)];
      out := Ok;
    } else {
      out := Fail(BelowBooked);
    }
  }

  method DeleteSlot(db: Database, id: SlotId) returns (out: Outcome)
    requires db.Valid()
    modifies db
    ensures db.Valid()
    ensures Step(db.Snapshot(), out) == DeleteSlotStep(old(db.Snapshot()), id)
  {
    if id !in db.slots {
      return Fail(NotFound);
    }
    if db.slots[id].booked > 0 {
      return Fail(HasBookings);
    }
    db.slots := db.slots - {id};
    out := Ok;
  }

  // ----- properties -----

  /** Adding a date twice is adding it once; a missing date changes nothing. */
  lemma AddDateIdempotent(t: Tables, doctor: DoctorId, date: string)
    ensures var once := AddDateStep(t, doctor, date).tables;
      AddDateStep(once, doctor, date) == Step(once, AddDateStep(t, doctor, date).outcome)
    ensures date == "" <==> AddDateStep(t, doctor, date).outcome == Fail(DateRequired)
    ensures date == "" ==> AddDateStep(t, doctor, date).tables == t
    ensures date != "" ==> (doctor, date) in AddDateStep(t, doctor, date).tables.days
    ensures var t' := AddDateStep(t, doctor, date).tables;
      t'.slots == t.slots && forall k :: k in t.days ==> k in t'.days && t'.days[k] == t.days[k]
  {
  }

  /** Removing a date is refused exactly when one of its slots holds a booking. Otherwise
      it removes that date's slots and day row and nothing of any other doctor or date. */
  lemma DeleteDateIff(t: Tables, doctor: DoctorId, date: string)
    requires WellFormed(t)
    ensures DeleteDateStep(t, doctor, date).outcome == Fail(HasBookings) <==>
              exists id :: id in t.slots && Matches(OnDate(doctor, date), t.slots[id]) && t.slots[id].booked > 0
    ensures DeleteDateStep(t, doctor, date).outcome.Fail? ==> DeleteDateStep(t, doctor, date).tables == t
    ensures DeleteDateStep(t, doctor, date).outcome == Ok ==>
      var t' := DeleteDateStep(t, doctor, date).tables;
      && (forall id :: id in t'.slots <==> id in t.slots && !(t.slots[id].doctor == doctor && t.slots[id].date == date))
      && (forall id :: id in t'.slots ==> t'.slots[id] == t.slots[id])
      && (forall k :: k in t'.days <==> k in t.days && k != (doctor, date))
      && (forall k :: k in t'.days ==> t'.days[k] == t.days[k])
      && t'.appts == t.appts
  {
    CountWherePositive(t.slots, t.nextSlot, OnDate(doctor, date), false);
    if exists id :: id in t.slots && Matches(OnDate(doctor, date), t.slots[id]) && t.slots[id].booked > 0 {
      var id :| id in t.slots && Matches(OnDate(doctor, date), t.slots[id]) && t.slots[id].booked > 0;
      assert Counted(t.slots[id], OnDate(doctor, date), false);
    }
  }

  /** Adding a slot: a falsy field is refused and changes nothing; a row with the same time
      value gains `n` of capacity and keeps its bookings; otherwise a fresh row is created
      with no bookings. */
  lemma AddSlotEffect(t: Tables, doctor: DoctorId, date: string, time: string, timeValue: int, n: int)
    requires WellFormed(t)
    ensures var st := AddSlotStep(t, doctor, date, time, timeValue, n);
      (time == "" || timeValue == 0 || n == 0) <==> st == Step(t, Fail(MissingFields))
    ensures var st := AddSlotStep(t, doctor, date, time, timeValue, n);
      st.outcome == Ok && (exists id :: id in t.slots && Matches(AtTimeValue(doctor, date, timeValue), t.slots[id])) ==>
        var s := FirstWhere(t.slots, t.nextSlot, AtTimeValue(doctor, date, timeValue)).value;
        && st.tables.slots.Keys == t.slots.Keys
        && st.tables.slots[s].total == t.slots[s].total + n
        && st.tables.slots[s].booked == t.slots[s].booked
        && (forall id :: id in t.slots && id != s ==> st.tables.slots[id] == t.slots[id])
    ensures var st := AddSlotStep(t, doctor, date, time, timeValue, n);
      st.outcome == Ok && (forall id :: id in t.slots ==> !Matches(AtTimeValue(doctor, date, timeValue), t.slots[id])) ==>
        && t.nextSlot !in t.slots
        && st.tables.slots == t.slots[t.nextSlot := Slot(doctor, date, time, timeValue, n, 0)]
  {
  }

  /** A positive capacity bump, or a new row with a non-negative capacity, keeps
      `booked <= total`; adding a date touches no slot. */
  lemma AddSlotKeepsCapacity(t: Tables, doctor: DoctorId, date: string, time: string, timeValue: int, n: int)
    requires WellFormed(t) && WithinCapacity(t.slots) && n >= 0
    ensures WellFormed(AddSlotStep(t, doctor, date, time, timeValue, n).tables)
    ensures WithinCapacity(AddSlotStep(t, doctor, date, time, timeValue, n).tables.slots)
  {
  }

  /** The capacity update is applied exactly when the row exists and its current capacity
      covers its bookings; the new capacity itself is not checked. */
  lemma UpdateCapacityIff(t: Tables, id: SlotId, total: int)
    ensures UpdateCapacityStep(t, id, total).outcome == Ok <==> id in t.slots && t.slots[id].total >= t.slots[id].booked
    ensures UpdateCapacityStep(t, id, total).outcome == Ok ==>
              UpdateCapacityStep(t, id, total).tables.slots == t.slots[id := t.slots[id].(total := total)]
    ensures UpdateCapacityStep(t, id, total).outcome.Fail? ==> UpdateCapacityStep(t, id, total).tables == t
  {
  }

  /** As written, a slot with bookings can be given a capacity below them: the update is
      accepted and the capacity invariant is broken. */
  lemma UpdateCapacityBreaksCapacity(t: Tables, id: SlotId, total: int)
    requires WithinCapacity(t.slots) && id in t.slots
    requires total < t.slots[id].booked
    ensures UpdateCapacityStep(t, id, total).outcome == Ok
    ensures !WithinCapacity(UpdateCapacityStep(t, id, total).tables.slots)
  {
    assert UpdateCapacityStep(t, id, total).tables.slots[id].total == total;
  }

  /** With the guard on the new capacity, the update keeps `booked <= total` and is refused
      exactly when it would reduce the capacity below the bookings. */
  lemma UpdateCapacityIntendedKeepsCapacity(t: Tables, id: SlotId, total: int)
    requires WithinCapacity(t.slots)
    ensures WithinCapacity(UpdateCapacityIntendedStep(t, id, total).tables.slots)
    ensures UpdateCapacityIntendedStep(t, id, total).outcome == Ok <==> id in t.slots && total >= t.slots[id].booked
  {
  }

  /** Removing a slot: a missing row is reported, a row with bookings is refused, and
      otherwise only that row goes. */
  lemma DeleteSlotCases(t: Tables, id: SlotId)
    ensures id !in t.slots ==> DeleteSlotStep(t, id) == Step(t, Fail(NotFound))
    ensures id in t.slots && t.slots[id].booked > 0 ==> DeleteSlotStep(t, id) == Step(t, Fail(HasBookings))
    ensures DeleteSlotStep(t, id).outcome == Ok <==> id in t.slots && t.slots[id].booked <= 0
    ensures DeleteSlotStep(t, id).outcome == Ok ==>
      var t' := DeleteSlotStep(t, id).tables;
      && id !in t'.slots && t'.slots.Keys == t.slots.Keys - {id}
      && (forall k :: k in t'.slots ==> t'.slots[k] == t.slots[k])
      && t'.days == t.days && t'.appts == t.appts
  {
  }
}
