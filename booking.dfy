/**
 * The appointment lifecycle handlers of routes/appointments.js: create, edit,
 * cancel, approve, complete and the status endpoint. Each handler is a pure
 * step function over the tables, which states what the route does, and a
 * method that performs the same updates one statement at a time on the
 * shared database object. A transaction that rolls back leaves every table as
 * it was, so a failing step returns its input tables.
 */
module Booking {
  import opened Wrappers
  import opened Clocks
  import opened Tables
  import Holidays
  import TimeFormat

  /** The body of a booking request. Absent text fields are "", absent numbers 0. */
  datatype Request = Request(user: UserId, serviceId: nat, service: string, doctor: DoctorId,
                             date: string, time: string, patientName: string, patientAge: nat,
                             notes: string)

  /** The body of an edit request: the new slot and the new patient details. */
  datatype Changes = Changes(service: string, doctor: DoctorId, date: string, time: string,
                             patientName: string, patientAge: nat, notes: string)

  /** The falsy-field check of the create route: the service text is not required, the
      service id is. */
  predicate MissingRequest(r: Request)
  {
    r.user == 0 || r.serviceId == 0 || r.doctor == 0 || r.date == "" || r.time == ""
    || r.patientName == "" || r.patientAge == 0
  }

  /** The falsy-field check of the edit route. */
  predicate MissingChanges(ch: Changes)
  {
    ch.service == "" || ch.doctor == 0 || ch.date == "" || ch.time == ""
    || ch.patientName == "" || ch.patientAge == 0
  }

  /** The row the create route inserts. */
  function NewAppt(r: Request): Appt
  {
    Appt(r.user, r.serviceId, r.service, r.doctor, r.date, r.time, r.patientName, r.patientAge,
         r.notes, Pending, false, false)
  }

  /** The row the edit route writes: the new details, the same user and service id. */
  function Edited(a: Appt, ch: Changes): Appt
  {
    a.(service := ch.service, doctor := ch.doctor, date := ch.date, time := ch.time,
       patientName := ch.patientName, patientAge := ch.patientAge, notes := ch.notes,
       reminderSent := false)
  }

  /** "Is the requested date/time in the past": `new Date(date + " " + time) < now`. */
  predicate PastSlot(c: Clock, date: string, time: string)
  {
    Before(c.parse(date + " " + time), c.now)
  }

  /** Cancel's past check on a stored appointment: the template string
      `${appt.date} ${appt.time}` prints the driver's `Date` with `toString`. */
  predicate PastAppt(c: Clock, a: Appt)
  {
    Before(c.parse(c.shown(a.date) + " " + a.time), c.now)
  }

  /** The instant approve computes: `new Date(dateOnly + "T" + convertTo24Hour(time))`,
      where `dateOnly` is `date.toISOString().slice(0, 10)`. */
  function ApproveInstant(c: Clock, a: Appt): Instant
  {
    c.parse(c.iso(a.date) + "T" + TimeFormat.To24Hour(a.time))
  }

  /** A push to the user's registered token, or nothing when the user is unknown or has none. */
  function PushTo(users: map<UserId, string>, user: UserId, title: string, body: string): (m: seq<Message>)
    ensures |m| <= 1
    ensures |m| == 1 <==> user in users && users[user] != ""
    ensures |m| == 1 ==> m[0] == Push(users[user], title, body)
  {
    if user in users && users[user] != "" then [Push(users[user], title, body)] else []
  }

  const CancelTitle := "Appointment Cancelled \U{274C}"
  const CancelBody := "Your appointment has been cancelled. Contact the clinic for more info"
  const ApprovedTitle := "Appointment Approved"
  const ApprovedPushTitle := "Appointment Approved \U{2705}"
  const ApprovedBody := "Your appointment has been approved by the clinic."
  const ReminderTitle := "\U{1F514} Mediq Reminder"
  const CompletedTitle := "Appointment Completed \U{1F3E5}"
  const CompletedBody := "Your appointment has been marked as completed."

  /** `${d.name}` of the LEFT JOIN on doctors: "null" when the doctor row is missing. */
  function DoctorLabel(names: map<DoctorId, string>, d: DoctorId): string
  {
    if d in names then names[d] else "null"
  }

  /** The text of the reminder approve sends at once. */
  function InstantReminderText(a: Appt, doctorName: string): string
  {
    "Reminder: You have an appointment for " + a.service + " with " + doctorName + " at " + a.time + " today"
  }

  /** What approve sends once the row is approved: nothing when the user row is missing
      (the inner JOIN finds no row); otherwise the inbox entry, the approval push when there
      is a token, and the instant reminder when the appointment is due within the window. */
  function ApprovalMessages(t: Tables, a: Appt, at: Instant, now: int): (m: seq<Message>)
    ensures a.user !in t.users ==> m == []
    ensures a.user in t.users ==> |m| >= 1 && m[0] == Inbox(a.user, ApprovedTitle, ApprovedBody)
    ensures forall i :: 1 <= i < |m| ==> m[i].Push?
    ensures (exists i :: 0 <= i < |m| && m[i].Push? && m[i].title == ApprovedPushTitle) <==>
              a.user in t.users && t.users[a.user] != ""
    ensures a.user in t.users && t.users[a.user] != "" ==>
              |m| >= 2 && m[1] == Push(t.users[a.user], ApprovedPushTitle, ApprovedBody)
    ensures (exists i :: 0 <= i < |m| && m[i].Push? && m[i].title == ReminderTitle) <==>
              a.user in t.users && t.users[a.user] != "" && InReminderWindow(at, now)
  {
    if a.user !in t.users then []
    else
      var token := t.users[a.user];
      var reminder := if InReminderWindow(at, now) && token != ""
         then [Push(token, ReminderTitle, InstantReminderText(a, DoctorLabel(t.doctorNames, a.doctor)))]
         else [];
      var m := [Inbox(a.user, ApprovedTitle, ApprovedBody)]
      + (if token != "" then [Push(token, ApprovedPushTitle, ApprovedBody)] else [])
      + reminder;
      assert ApprovedPushTitle[0] != ReminderTitle[0];
      assert reminder != [] ==> m[|m| - 1] == reminder[0];
      assert token != "" ==> m[1] == Push(token, ApprovedPushTitle, ApprovedBody);
      assert token == "" ==> m == [Inbox(a.user, ApprovedTitle, ApprovedBody)];
      m
  }

  /** POST /: book the first slot row at the requested doctor, date and time. */
  function CreateStep(t: Tables, c: Clock, r: Request): Step
  {
    if PastSlot(c, r.date, r.time) then Step(t, Fail(PastTime))
    else if Holidays.IsHoliday(r.date) then Step(t, Fail(Holiday))
    else if MissingRequest(r) then Step(t, Fail(MissingFields))
    else
      match FirstWhere(t.slots, t.nextSlot, AtTime(r.doctor, r.date, r.time))
      case None => Step(t, Fail(SlotNotFound))
      case Some(s) =>
        if t.slots[s].booked >= t.slots[s].total then Step(t, Fail(SlotFull))
        else
          Step(t.(appts := t.appts[t.nextAppt := NewAppt(r)], nextAppt := t.nextAppt + 1,
                  slots := Reserve(t.slots, s), days := AddToDay(t.days, (r.doctor, r.date), 1)),
               Ok)
  }

  /** PUT /:id: move a pending appointment to a new slot. The old slot is released first,
      then the new one is looked up and reserved; the day rows are not touched. */
  function EditStep(t: Tables, c: Clock, id: ApptId, ch: Changes): Step
  {
    if PastSlot(c, ch.date, ch.time) then Step(t, Fail(PastTime))
    else if MissingChanges(ch) then Step(t, Fail(MissingFields))
    else if id !in t.appts then Step(t, Fail(NotFound))
    else if t.appts[id].status != Pending then Step(t, Fail(NotPending))
    else
      var a := t.appts[id];
      var released := ReleaseAt(t.slots, a.doctor, a.date, a.time);
      match FirstWhere(released, t.nextSlot, AtTime(ch.doctor, ch.date, ch.time))
      case None => Step(t, Fail(SlotNotFound))
      case Some(s) =>
        if released[s].booked >= released[s].total then Step(t, Fail(SlotFull))
        else Step(t.(slots := Reserve(released, s), appts := t.appts[id := Edited(a, ch)]), Ok)
  }

  /** PUT /:id/cancel: the past check comes before the status check; the day counter is
      decremented without a guard. */
  function CancelStep(t: Tables, c: Clock, id: ApptId): Step
  {
    if id !in t.appts then Step(t, Fail(NotFound))
    else
      var a := t.appts[id];
      if PastAppt(c, a) then Step(t, Fail(PastTime))
      else if !(a.status == Pending || a.status == Approved) then Step(t, Fail(CannotCancel))
      else
        Step(t.(appts := t.appts[id := a.(status := Cancelled, arrived := false, reminderSent := true)],
                slots := ReleaseAt(t.slots, a.doctor, a.date, a.time),
                days := AddToDay(t.days, (a.doctor, a.date), -1),
                outbox := t.outbox + PushTo(t.users, a.user, CancelTitle, CancelBody)),
             Ok)
  }

  /** PUT /:id/approve: the past check, then the conditional update from pending. */
  function ApproveStep(t: Tables, c: Clock, id: ApptId): Step
  {
    if id !in t.appts then Step(t, Fail(NotFound))
    else
      var a := t.appts[id];
      var at := ApproveInstant(c, a);
      if Before(at, c.now) then Step(t, Fail(PastTime))
      else if a.status != Pending then Step(t, Fail(CannotApprove))
      else
        var approved := a.(status := Approved, reminderSent := false);
        Step(t.(appts := t.appts[id := approved],
                outbox := t.outbox + ApprovalMessages(t, approved, at, c.now)),
             Ok)
  }

  /** ApproveStep as it is evidently meant to be: when the instant reminder goes out,
      the row is marked as reminded, as the reminder worker marks the rows it reminds. */
  function ApproveOnceStep(t: Tables, c: Clock, id: ApptId): (st: Step)
    ensures st.outcome == ApproveStep(t, c, id).outcome
    ensures st.tables.outbox == ApproveStep(t, c, id).tables.outbox
    ensures st.tables.slots == t.slots && st.tables.days == t.days
  {
    var s := ApproveStep(t, c, id);
    if s.outcome == Ok then
      var a := t.appts[id];
      var reminded := a.user in t.users && t.users[a.user] != "" && InReminderWindow(ApproveInstant(c, a), c.now);
      Step(s.tables.(appts := s.tables.appts[id := s.tables.appts[id].(reminderSent := reminded)]), Ok)
    else s
  }

  /** PUT /:id/complete: the conditional update from approved. */
  function CompleteStep(t: Tables, id: ApptId): Step
  {
    if id in t.appts && t.appts[id].status == Approved then
      var a := t.appts[id];
      Step(t.(appts := t.appts[id := a.(status := Completed, arrived := false, reminderSent := true)],
              outbox := t.outbox + PushTo(t.users, a.user, CompletedTitle, CompletedBody)),
           Ok)
    else Step(t, Fail(CannotComplete))
  }

  /** The statuses the status endpoint accepts, by their stored names. */
  function ParseStatus(s: string): (r: Option<Status>)
    ensures r.Some? <==> s in ["arrived", "no_show", "completed"]
    ensures r == Some(Arrived) <==> s == "arrived"
    ensures r == Some(NoShow) <==> s == "no_show"
    ensures r == Some(Completed) <==> s == "completed"
  {
    if s == "arrived" then Some(Arrived)
    else if s == "no_show" then Some(NoShow)
    else if s == "completed" then Some(Completed)
    else None
  }

  /** PUT /:id/status: an unconditional overwrite of the status; an unknown id updates no row
      and still answers success. */
  function SetStatusStep(t: Tables, id: ApptId, status: string): Step
  {
    match ParseStatus(status)
    case None => Step(t, Fail(InvalidStatus))
    case Some(st) =>
      if id in t.appts then Step(t.(appts := t.appts[id := t.appts[id].(status := st)]), Ok)
      else Step(t, Ok)
  }

  method Create(db: Database, c: Clock, r: Request) returns (out: Outcome)
    requires db.Valid()
    modifies db
    ensures db.Valid()
    ensures Step(db.Snapshot(), out) == CreateStep(old(db.Snapshot()), c, r)
  {
    if PastSlot(c, r.date, r.time) {
      return Fail(PastTime);
    }
    if Holidays.IsHoliday(r.date) {
      return Fail(Holiday);
    }
    if MissingRequest(r) {
      return Fail(MissingFields);
    }
    var found := FirstWhere(db.slots, db.nextSlot, AtTime(r.doctor, r.date, r.time));
    if found.None? {
      return Fail(SlotNotFound);
    }
    var s := found.value;
    if db.slots[s].booked >= db.slots[s].total {
      return Fail(SlotFull);
    }
    db.appts := db.appts[db.nextAppt := NewAppt(r)];
    db.nextAppt := db.nextAppt + 1;
    db.slots := db.slots[s := db.slots[s].(booked := db.slots[s].booked + 1)];
    db.days := AddToDay(db.days, (r.doctor, r.date), 1);
    out := Ok;
  }

  method Edit(db: Database, c: Clock, id: ApptId, ch: Changes) returns (out: Outcome)
    requires db.Valid()
    modifies db
    ensures db.Valid()
    ensures Step(db.Snapshot(), out) == EditStep(old(db.Snapshot()), c, id, ch)
  {
    if PastSlot(c, ch.date, ch.time) {
      return Fail(PastTime);
    }
    if MissingChanges(ch) {
      return Fail(MissingFields);
    }
    if id !in db.appts {
      return Fail(NotFound);
    }
    var a := db.appts[id];
    if a.status != Pending {
      return Fail(NotPending);
    }
    var saved := db.slots;
    db.slots := ReleaseAt(db.slots, a.doctor, a.date, a.time);
    var found := FirstWhere(db.slots, db.nextSlot, AtTime(ch.doctor, ch.date, ch.time));
    if found.None? {
      db.slots := saved;
      return Fail(SlotNotFound);
    }
    var s := found.value;
    if db.slots[s].booked >= db.slots[s].total {
      db.slots := saved;
      return Fail(SlotFull);
    }
    db.slots := Reserve(db.slots, s);
    db.appts := db.appts[id := Edited(a, ch)];
    out := Ok;
  }

  method Cancel(db: Database, c: Clock, id: ApptId) returns (out: Outcome)
    requires db.Valid()
    modifies db
    ensures db.Valid()
    ensures Step(db.Snapshot(), out) == CancelStep(old(db.Snapshot()), c, id)
  {
    if id !in db.appts {
      return Fail(NotFound);
    }
    var a := db.appts[id];
    if PastAppt(c, a) {
      return Fail(PastTime);
    }
    if !(a.status == Pending || a.status == Approved) {
      return Fail(CannotCancel);
    }
    db.appts := db.appts[id := a.(status := Cancelled, arrived := false, reminderSent := true)];
    db.slots := ReleaseAt(db.slots, a.doctor, a.date, a.time);
    db.days := AddToDay(db.days, (a.doctor, a.date), -1);
    if a.user in db.users && db.users[a.user] != "" {
      db.outbox := db.outbox + [Push(db.users[a.user], CancelTitle, CancelBody)];
    }
    out := Ok;
  }

  method Approve(db: Database, c: Clock, id: ApptId) returns (out: Outcome)
    requires db.Valid()
    modifies db
    ensures db.Valid()
    ensures Step(db.Snapshot(), out) == ApproveStep(old(db.Snapshot()), c, id)
  {
    if id !in db.appts {
      return Fail(NotFound);
    }
    var at := ApproveInstant(c, db.appts[id]);
    if Before(at, c.now) {
      return Fail(PastTime);
    }
    if db.appts[id].status != Pending {
      return Fail(CannotApprove);
    }
    var a := db.appts[id].(status := Approved, reminderSent := false);
    db.appts := db.appts[id := a];
    out := Ok;
    if a.user !in db.users {
      return;
    }
    var token := db.users[a.user];
    db.outbox := db.outbox + [Inbox(a.user, ApprovedTitle, ApprovedBody)];
    if token != "" {
      db.outbox := db.outbox + [Push(token, ApprovedPushTitle, ApprovedBody)];
    }
    if InReminderWindow(at, c.now) && token != "" {
      var text := InstantReminderText(a, DoctorLabel(db.doctorNames, a.doctor));
      db.outbox := db.outbox + [Push(token, ReminderTitle, text)];
    }
  }

  method Complete(db: Database, id: ApptId) returns (out: Outcome)
    requires db.Valid()
    modifies db
    ensures db.Valid()
    ensures Step(db.Snapshot(), out) == CompleteStep(old(db.Snapshot()), id)
  {
    if !(id in db.appts && db.appts[id].status == Approved) {
      return Fail(CannotComplete);
    }
    var a := db.appts[id];
    db.appts := db.appts[id := a.(status := Completed, arrived := false, reminderSent := true)];
    db.outbox := db.outbox + PushTo(db.users, a.user, CompletedTitle, CompletedBody);
    out := Ok;
  }

  method SetStatus(db: Database, id: ApptId, status: string) returns (out: Outcome)
    requires db.Valid()
    modifies db
    ensures db.Valid()
    ensures Step(db.Snapshot(), out) == SetStatusStep(old(db.Snapshot()), id, status)
  {
    var st := ParseStatus(status);
    if st.None? {
      return Fail(InvalidStatus);
    }
    if id in db.appts {
      db.appts := db.appts[id := db.appts[id].(status := st.value)];
    }
    out := Ok;
  }
}
