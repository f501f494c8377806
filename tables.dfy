/**
 * The capacity store and the appointment table: the rows the booking engine,
 * the admin scheduling routes and the periodic sweeps share, and the
 * row-level helpers (find a slot, reserve it, release it, adjust a day).
 */
module Tables {
  import opened Wrappers

  type DoctorId = nat
  type UserId = nat
  type SlotId = nat
  type ApptId = nat

  /** A `doctor_time_slots` row: a bookable time of a doctor's date with its capacity
      and the number of reservations held against it. */
  datatype Slot = Slot(doctor: DoctorId, date: string, time: string, timeValue: int,
                       total: int, booked: int)

  /** A `doctor_availability` row, keyed by doctor and date: the closed flag, the
      day-level capacity and booking aggregates, and the cleanup's expired mark. */
  datatype Day = Day(closed: bool, total: int, booked: int, expired: bool)

  /** A day row created with only its key; the other columns take their defaults. */
  const NewDay: Day := Day(false, 0, 0, false)

  datatype Status = Pending | Approved | Cancelled | Completed | Arrived | NoShow

  /** An `appointments` row. Text columns hold "" for SQL NULL. */
  datatype Appt = Appt(user: UserId, serviceId: nat, service: string, doctor: DoctorId,
                       date: string, time: string, patientName: string, patientAge: nat,
                       notes: string, status: Status, arrived: bool, reminderSent: bool)

  /** A notification intent: an inbox row for a user, or a push to a device token. */
  datatype Message = Inbox(user: UserId, title: string, body: string)
                   | Push(token: string, title: string, body: string)

  /** The tables together. `users` maps each registered user to their push token ("" when
      none); `doctorNames` is read by the reminder texts; `outbox` lists every notification
      intent produced so far; `nextSlot` and `nextAppt` are the auto-increment counters. */
  datatype Tables = Tables(slots: map<SlotId, Slot>, days: map<(DoctorId, string), Day>,
                           appts: map<ApptId, Appt>, users: map<UserId, string>,
                           doctorNames: map<DoctorId, string>, outbox: seq<Message>,
                           nextSlot: nat, nextAppt: nat)

  /** Every row id lies below its auto-increment counter, so the next insert gets a new id. */
  predicate WellFormed(t: Tables)
  {
    && (forall id :: id in t.slots ==> id < t.nextSlot)
    && (forall id :: id in t.appts ==> id < t.nextAppt)
  }

  /** The capacity invariant: no slot holds more reservations than it has room for. */
  predicate WithinCapacity(slots: map<SlotId, Slot>)
  {
    forall id :: id in slots ==> 0 <= slots[id].booked <= slots[id].total
  }

  /** The WHERE clauses the routes select slot rows with. */
  datatype Filter = AtTime(doctor: DoctorId, date: string, time: string)
                  | AtTimeValue(doctor: DoctorId, date: string, timeValue: int)
                  | OnDate(doctor: DoctorId, date: string)

  predicate Matches(f: Filter, s: Slot)
  {
    s.doctor == f.doctor && s.date == f.date
    && match f
       case AtTime(_, _, time) => s.time == time
       case AtTimeValue(_, _, tv) => s.timeValue == tv
       case OnDate(_, _) => true
  }

  /** `rows[0]` of a SELECT: the lowest id below `bound` whose row matches. */
  function FirstWhere(slots: map<SlotId, Slot>, bound: nat, f: Filter): (r: Option<SlotId>)
    ensures r.Some? ==> r.value < bound && r.value in slots && Matches(f, slots[r.value])
    ensures r.Some? ==> forall j :: 0 <= j < r.value && j in slots ==> !Matches(f, slots[j])
    ensures r.None? ==> forall j :: 0 <= j < bound && j in slots ==> !Matches(f, slots[j])
  {
    if bound == 0 then None
    else
      match FirstWhere(slots, bound - 1, f)
      case Some(i) => Some(i)
      case None => if bound - 1 in slots && Matches(f, slots[bound - 1]) then Some(bound - 1) else None
  }

  /** Two slot tables with the same rows apart from their counters. */
  predicate SameRows(a: map<SlotId, Slot>, b: map<SlotId, Slot>)
  {
    a.Keys == b.Keys
    && forall id :: id in a ==> a[id].(total := 0, booked := 0) == b[id].(total := 0, booked := 0)
  }

  /** Which row a SELECT finds does not depend on the counters. */
  lemma {:induction false} FirstWhereIgnoresCounters(a: map<SlotId, Slot>, b: map<SlotId, Slot>, bound: nat, f: Filter)
    requires SameRows(a, b)
    ensures FirstWhere(a, bound, f) == FirstWhere(b, bound, f)
  {
    if bound > 0 {
      FirstWhereIgnoresCounters(a, b, bound - 1, f);
      var id := bound - 1;
      if id in a {
        assert a[id].(total := 0, booked := 0) == b[id].(total := 0, booked := 0);
        assert Matches(f, a[id]) == Matches(f, b[id]);
      }
    }
  }

  /** `UPDATE doctor_time_slots SET booked_slots = booked_slots + 1 WHERE id = ?` */
  function Reserve(slots: map<SlotId, Slot>, id: SlotId): map<SlotId, Slot>
    requires id in slots
  {
    slots[id := slots[id].(booked := slots[id].booked + 1)]
  }

  /** `UPDATE doctor_time_slots SET booked_slots = booked_slots - 1 WHERE doctor_id = ?
      AND DATE(date) = ? AND time = ? AND booked_slots > 0`: every matching row with a
      reservation gives one back. */
  function ReleaseAt(slots: map<SlotId, Slot>, doctor: DoctorId, date: string, time: string): (r: map<SlotId, Slot>)
    ensures r.Keys == slots.Keys
  {
    map id | id in slots ::
      if Matches(AtTime(doctor, date, time), slots[id]) && slots[id].booked > 0
      then slots[id].(booked := slots[id].booked - 1)
      else slots[id]
  }

  /** `UPDATE doctor_availability SET booked_slots = booked_slots + delta WHERE doctor_id = ?
      AND DATE(date) = ?` (no row: nothing happens). */
  function AddToDay(days: map<(DoctorId, string), Day>, key: (DoctorId, string), delta: int): map<(DoctorId, string), Day>
  {
    if key in days then days[key := days[key].(booked := days[key].booked + delta)] else days
  }

  /** A reservation adds one to its row only, and on a slot with room it keeps the capacity
      invariant. */
  lemma ReserveKeepsCapacity(slots: map<SlotId, Slot>, id: SlotId)
    requires id in slots
    ensures SameRows(slots, Reserve(slots, id))
    ensures Reserve(slots, id)[id].booked == slots[id].booked + 1
    ensures WithinCapacity(slots) && slots[id].booked < slots[id].total ==> WithinCapacity(Reserve(slots, id))
  {
  }

  /** A release never drives a counter below zero, frees at most one unit per row, keeps
      the capacity invariant, and leaves every row that does not match as it was. */
  lemma ReleaseAtBounds(slots: map<SlotId, Slot>, doctor: DoctorId, date: string, time: string)
    ensures var r := ReleaseAt(slots, doctor, date, time);
      && SameRows(slots, r)
      && (forall id :: id in slots ==> (slots[id].booked >= 0 ==> r[id].booked >= 0))
      && (forall id :: id in slots ==> r[id].booked == slots[id].booked || r[id].booked == slots[id].booked - 1)
      && (forall id :: id in slots && !Matches(AtTime(doctor, date, time), slots[id]) ==> r[id] == slots[id])
      && (WithinCapacity(slots) ==> WithinCapacity(r))
  {
  }

  /** The number of rows below `bound` that match the filter and satisfy `booked < total`
      (when `open`) or `booked > 0` (otherwise): the SUM(CASE ...) and COUNT(*) queries. */
  function CountWhere(slots: map<SlotId, Slot>, bound: nat, f: Filter, open: bool): nat
  {
    if bound == 0 then 0
    else
      var id := bound - 1;
      CountWhere(slots, id, f, open)
      + (if id in slots && Matches(f, slots[id])
            && (if open then slots[id].booked < slots[id].total else slots[id].booked > 0)
         then 1 else 0)
  }

  predicate Counted(s: Slot, f: Filter, open: bool)
  {
    Matches(f, s) && (if open then s.booked < s.total else s.booked > 0)
  }

  /** A count is positive exactly when some counted row exists. */
  lemma {:induction false} CountWherePositive(slots: map<SlotId, Slot>, bound: nat, f: Filter, open: bool)
    ensures CountWhere(slots, bound, f, open) > 0 <==>
              exists id :: 0 <= id < bound && id in slots && Counted(slots[id], f, open)
  {
    if bound > 0 {
      CountWherePositive(slots, bound - 1, f, open);
      if CountWhere(slots, bound, f, open) > 0 && CountWhere(slots, bound - 1, f, open) == 0 {
        assert Counted(slots[bound - 1], f, open);
      }
    }
  }

  /** How a calendar shows a date. */
  datatype DayStatus = Closed | Available | NoSlots

  /** The dates of a doctor's day rows. */
  function DoctorDates(days: map<(DoctorId, string), Day>, doctor: DoctorId): set<string>
  {
    set k | k in days && k.0 == doctor :: k.1
  }

  /** Why a route refused a request. */
  datatype Reason = PastTime | Holiday | MissingFields | SlotNotFound | SlotFull | NotFound
                  | NotPending | CannotCancel | CannotApprove | CannotComplete | InvalidStatus
                  | DateRequired | HasBookings | BelowBooked | DuplicateBooking

  datatype Outcome = Ok | Fail(reason: Reason)

  /** The tables after a route ran, and what the route answered. */
  datatype Step = Step(tables: Tables, outcome: Outcome)

  /** The database the routes share: one field per table. The route handlers are
      methods of their own modules that change these fields. */
  class Database {
    var slots: map<SlotId, Slot>
    var days: map<(DoctorId, string), Day>
    var appts: map<ApptId, Appt>
    var users: map<UserId, string>
    var doctorNames: map<DoctorId, string>
    var outbox: seq<Message>
    var nextSlot: nat
    var nextAppt: nat

    /** Empty capacity and appointment tables over the given users and doctors. */
    constructor (users: map<UserId, string>, doctorNames: map<DoctorId, string>)
      ensures Valid()
      ensures Snapshot() == Tables(map[], map[], map[], users, doctorNames, [], 0, 0)
    {
      this.slots := map[];
      this.days := map[];
      this.appts := map[];
      this.users := users;
      this.doctorNames := doctorNames;
      this.outbox := [];
      this.nextSlot := 0;
      this.nextAppt := 0;
    }

    /** The current contents of every table. */
    function Snapshot(): Tables
      reads this
    {
      Tables(slots, days, appts, users, doctorNames, outbox, nextSlot, nextAppt)
    }

    ghost predicate Valid()
      reads this
    {
      WellFormed(Snapshot())
    }
  }
}
