/**
 * reminderWorker.js: one run of the periodic reminder sweep. The query selects
 * the approved appointments whose reminder has not been sent and whose user row
 * exists; for each one due within -10..+60 minutes the worker pushes a reminder
 * when the user has a token and marks the reminder sent either way.
 */
module Reminders {
  import opened Clocks
  import opened Tables
  import Booking
  import TimeFormat

  /** A row of the sweep's query (the inner JOIN on users drops appointments of unknown users). */
  predicate Considered(t: Tables, id: ApptId)
  {
    id in t.appts && t.appts[id].status == Approved && !t.appts[id].reminderSent && t.appts[id].user in t.users
  }

  /** The instant the worker computes for a row: `new Date(`${appt.date}T${time24}`)`,
      where the template string prints the driver's `Date` with `toString`. */
  function WorkerInstant(c: Clock, a: Appt): Instant
  {
    c.parse(c.shown(a.date) + "T" + TimeFormat.To24Hour(a.time))
  }

  /** A considered row inside the reminder window. */
  predicate Due(t: Tables, c: Clock, id: ApptId)
  {
    Considered(t, id) && InReminderWindow(WorkerInstant(c, t.appts[id]), c.now)
  }

  /** The ids the query returns, ascending. */
  function ConsideredBelow(t: Tables, bound: nat): (ids: seq<ApptId>)
    ensures forall id: ApptId :: id in ids <==> id < bound && Considered(t, id)
    ensures forall i, j :: 0 <= i < j < |ids| ==> ids[i] < ids[j]
  {
    if bound == 0 then []
    else
      var prev := ConsideredBelow(t, bound - 1);
      forall k | 0 <= k < |prev| ensures prev[k] < bound - 1 {
        assert prev[k] in prev;
      }
      prev + (if Considered(t, bound - 1) then [bound - 1] else [])
  }

  function Rows(t: Tables): seq<ApptId>
  {
    ConsideredBelow(t, t.nextAppt)
  }

  /** `appt.service || "Appointment"`, `appt.doctor_name || "Doctor"` and the day word. */
  function ReminderText(a: Appt, names: map<DoctorId, string>, today: bool): string
  {
    var service := if a.service == "" then "Appointment" else a.service;
    var doctor := if a.doctor in names && names[a.doctor] != "" then names[a.doctor] else "Doctor";
    "Reminder: You have an appointment for " + service + " with " + doctor + " at " + a.time
    + (if today then " today" else " tomorrow")
  }

  /** The push for appointment `a` of a user with token `token`: one when its slot time
      is inside the window and the token is not empty. */
  function RowPush(c: Clock, a: Appt, token: string, names: map<DoctorId, string>): (m: seq<Message>)
    ensures |m| <= 1
    ensures |m| == 1 <==> InReminderWindow(WorkerInstant(c, a), c.now) && token != ""
  {
    var at := WorkerInstant(c, a);
    if InReminderWindow(at, c.now) && token != "" then
      [Push(token, Booking.ReminderTitle, ReminderText(a, names, SameDay(at, c.now)))]
    else []
  }

  /** The push one selected row produces. */
  function PushFor(t: Tables, c: Clock, id: ApptId): (m: seq<Message>)
    ensures |m| <= 1
    ensures |m| == 1 <==> Due(t, c, id) && t.users[t.appts[id].user] != ""
  {
    if Considered(t, id) then RowPush(c, t.appts[id], t.users[t.appts[id].user], t.doctorNames) else []
  }

  /** The pushes for a list of rows, in list order. */
  function PushesFor(t: Tables, c: Clock, ids: seq<ApptId>): seq<Message>
  {
    if ids == [] then [] else PushesFor(t, c, ids[..|ids| - 1]) + PushFor(t, c, ids[|ids| - 1])
  }

  /** The rows of `ids` that are inside the reminder window. */
  function InWindow(t: Tables, c: Clock, ids: seq<ApptId>): (due: set<ApptId>)
    ensures forall id :: id in due ==> id in ids
  {
    if ids == [] then {}
    else
      var id := ids[|ids| - 1];
      InWindow(t, c, ids[..|ids| - 1])
      + (if id in t.appts && InReminderWindow(WorkerInstant(c, t.appts[id]), c.now) then {id} else {})
  }

  /** `UPDATE appointments SET reminder_sent = 1 WHERE id = ?` for every id in `ids`. */
  function Mark(appts: map<ApptId, Appt>, ids: set<ApptId>): map<ApptId, Appt>
  {
    map id | id in appts :: if id in ids then appts[id].(reminderSent := true) else appts[id]
  }

  /** `Mark` leaves a row it was not given unchanged. */
  lemma MarkLeavesOthers(appts: map<ApptId, Appt>, ids: set<ApptId>, id: ApptId)
    requires id in appts && id !in ids
    ensures id in Mark(appts, ids) && Mark(appts, ids)[id] == appts[id]
  {
  }

  /** The tables after one sweep at `c.now`. */
  function SweepStep(t: Tables, c: Clock): Tables
  {
    t.(appts := Mark(t.appts, InWindow(t, c, Rows(t))), outbox := t.outbox + PushesFor(t, c, Rows(t)))
  }

  /** One more selected row of the sweep: its push is appended to the outbox. */
  lemma OneMorePush(t: Tables, c: Clock, done: seq<ApptId>, id: ApptId, pushes: seq<Message>)
    requires Considered(t, id)
    requires pushes == RowPush(c, t.appts[id], t.users[t.appts[id].user], t.doctorNames)
    ensures t.outbox + PushesFor(t, c, done) + pushes == t.outbox + PushesFor(t, c, done + [id])
  {
    assert (done + [id])[..|done|] == done;
  }

  /** One more selected row of the sweep: it is marked when its slot time is inside the window. */
  lemma OneMoreMark(t: Tables, c: Clock, done: seq<ApptId>, id: ApptId, mark: bool)
    requires id in t.appts && id !in done
    requires mark <==> InReminderWindow(WorkerInstant(c, t.appts[id]), c.now)
    ensures (if mark then Mark(t.appts, InWindow(t, c, done))[id := t.appts[id].(reminderSent := true)]
             else Mark(t.appts, InWindow(t, c, done)))
         == Mark(t.appts, InWindow(t, c, done + [id]))
  {
    assert (done + [id])[..|done|] == done;
    if mark {
      assert InWindow(t, c, done + [id]) == InWindow(t, c, done) + {id};
    } else {
      assert InWindow(t, c, done + [id]) == InWindow(t, c, done);
    }
  }

  /** In an ascending list, the next element is not among the ones before it. */
  lemma NextRowIsNew(rows: seq<ApptId>, i: nat)
    requires forall j, k :: 0 <= j < k < |rows| ==> rows[j] < rows[k]
    requires i < |rows|
    ensures rows[i] !in rows[..i]
    ensures rows[..i + 1] == rows[..i] + [rows[i]]
  {
    forall k | 0 <= k < i ensures rows[..i][k] != rows[i] {
      assert rows[k] < rows[i];
    }
  }

  /** The body of the worker's loop for one selected row `a` whose user has push token
      `token`: whether the row is marked, and the push sent for it. */
  method RemindRow(c: Clock, a: Appt, token: string, names: map<DoctorId, string>)
    returns (mark: bool, pushes: seq<Message>)
    ensures mark <==> InReminderWindow(WorkerInstant(c, a), c.now)
    ensures pushes == RowPush(c, a, token, names)
  {
    var at := WorkerInstant(c, a);
    mark := InReminderWindow(at, c.now);
    pushes := [];
    if mark && token != "" {
      var isToday := SameDay(at, c.now);
      pushes := [Push(token, Booking.ReminderTitle, ReminderText(a, names, isToday))];
    }
  }

  /** The worker's loop over the query's rows: push, then mark. The updates are
      collected in `appts` and `outbox` and stored when the loop ends. */
  method Sweep(db: Database, c: Clock)
    requires db.Valid()
    modifies db
    ensures db.Valid()
    ensures db.Snapshot() == SweepStep(old(db.Snapshot()), c)
  {
    ghost var t := db.Snapshot();
    var rows := Rows(db.Snapshot());
    var appts, outbox, users, names := db.appts, db.outbox, db.users, db.doctorNames;
    var i := 0;
    assert rows[..0] == [];
    while i < |rows|
      invariant 0 <= i <= |rows|
      invariant db.Snapshot() == t
      invariant appts == Mark(t.appts, InWindow(t, c, rows[..i]))
      invariant outbox == t.outbox + PushesFor(t, c, rows[..i])
    {
      var id := rows[i];
      assert id in rows;
      NextRowIsNew(rows, i);
      MarkLeavesOthers(t.appts, InWindow(t, c, rows[..i]), id);
      var a := appts[id];
      var mark, pushes := RemindRow(c, a, users[a.user], names);
      OneMorePush(t, c, rows[..i], id, pushes);
      OneMoreMark(t, c, rows[..i], id, mark);
      outbox := outbox + pushes;
      if mark {
        appts := appts[id := a.(reminderSent := true)];
      }
      i := i + 1;
    }
    assert rows[..|rows|] == rows;
    assert appts.Keys == t.appts.Keys;
    db.appts, db.outbox := appts, outbox;
    assert db.Snapshot() == t.(appts := appts, outbox := outbox);
  }
}
