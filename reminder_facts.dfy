/**
 * What one reminder sweep does to the appointment table and the outbox, stated
 * row by row, and what a second sweep at the same instant does (nothing).
 */
module ReminderFacts {
  import opened Clocks
  import opened Tables
  import Booking
  import BookingFacts
  import opened Reminders

  /** A row is in `InWindow(ids)` exactly when it is one of `ids` and its slot time is in the window. */
  lemma {:induction false} InWindowIff(t: Tables, c: Clock, ids: seq<ApptId>, id: ApptId)
    ensures id in InWindow(t, c, ids) <==>
              id in ids && id in t.appts && InReminderWindow(WorkerInstant(c, t.appts[id]), c.now)
  {
    if ids != [] {
      InWindowIff(t, c, ids[..|ids| - 1], id);
      assert ids == ids[..|ids| - 1] + [ids[|ids| - 1]];
    }
  }

  /** The sweep marks exactly the due rows (whether or not a push went out) and
      changes nothing else about any appointment; no row appears or disappears. */
  lemma SweepMarksExactlyDue(t: Tables, c: Clock, id: ApptId)
    requires WellFormed(t)
    ensures id in SweepStep(t, c).appts <==> id in t.appts
    ensures id in t.appts ==>
              SweepStep(t, c).appts[id] == if Due(t, c, id) then t.appts[id].(reminderSent := true) else t.appts[id]
  {
    InWindowIff(t, c, Rows(t), id);
  }

  /** A message is in `PushesFor(ids)` exactly when it is the push of one of `ids`. */
  lemma {:induction false} PushesForIff(t: Tables, c: Clock, ids: seq<ApptId>, m: Message)
    ensures m in PushesFor(t, c, ids) <==> exists id :: id in ids && m in PushFor(t, c, id)
  {
    if ids != [] {
      var init, last := ids[..|ids| - 1], ids[|ids| - 1];
      PushesForIff(t, c, init, m);
      assert ids == init + [last];
      if m in PushesFor(t, c, ids) && m !in PushesFor(t, c, init) {
        assert m in PushFor(t, c, last);
      }
    }
  }

  /** The sweep's new outbox messages are exactly the reminders of the due rows whose
      user has a push token: the reminder title, to that token, with that row's text. */
  lemma SweepPushesExactlyDue(t: Tables, c: Clock, m: Message)
    requires WellFormed(t)
    ensures m in SweepStep(t, c).outbox[|t.outbox|..] <==>
              exists id :: Due(t, c, id) && t.users[t.appts[id].user] != "" && m == PushFor(t, c, id)[0]
  {
    assert SweepStep(t, c).outbox[|t.outbox|..] == PushesFor(t, c, Rows(t));
    PushesForIff(t, c, Rows(t), m);
  }

  /** No push for rows none of which is due. */
  lemma {:induction false} PushesForNone(t: Tables, c: Clock, ids: seq<ApptId>)
    requires forall id :: id in ids ==> !Due(t, c, id)
    ensures PushesFor(t, c, ids) == []
  {
    if ids != [] {
      PushesForNone(t, c, ids[..|ids| - 1]);
      assert ids[|ids| - 1] in ids;
    }
  }

  /** A row the next sweep still selects was selected by this one and was not due. */
  lemma StillSelectedWasNotDue(t: Tables, c: Clock, id: ApptId)
    requires WellFormed(t)
    requires Considered(SweepStep(t, c), id)
    ensures Considered(t, id) && !Due(t, c, id)
    ensures SweepStep(t, c).appts[id] == t.appts[id]
  {
    SweepMarksExactlyDue(t, c, id);
  }

  /** Running the sweep a second time at the same instant sends nothing and changes
      nothing: every row the first run was due for is marked. */
  lemma SweepIdempotent(t: Tables, c: Clock)
    requires WellFormed(t)
    ensures SweepStep(SweepStep(t, c), c) == SweepStep(t, c)
  {
    var t2 := SweepStep(t, c);
    var rows := Rows(t2);
    forall id | id in rows ensures !Due(t2, c, id) && id !in InWindow(t2, c, rows) {
      StillSelectedWasNotDue(t, c, id);
      InWindowIff(t2, c, rows, id);
    }
    forall id | id in InWindow(t2, c, rows) ensures false {
      InWindowIff(t2, c, rows, id);
    }
    assert InWindow(t2, c, rows) == {};
    PushesForNone(t2, c, rows);
    assert Mark(t2.appts, {}) == t2.appts;
  }

  /** When the worker's `${appt.date}T...` text of every row is one the date parser
      cannot read, the sweep neither pushes nor marks anything. */
  lemma SweepInertWhenUnparsed(t: Tables, c: Clock)
    requires forall id :: id in t.appts ==> WorkerInstant(c, t.appts[id]) == Invalid
    ensures SweepStep(t, c) == t
  {
    var rows := Rows(t);
    forall id | id in InWindow(t, c, rows) ensures false {
      InWindowIff(t, c, rows, id);
    }
    assert InWindow(t, c, rows) == {};
    PushesForNone(t, c, rows);
    assert Mark(t.appts, {}) == t.appts;
  }

  /** As written, approving an appointment that starts within the hour pushes the
      instant reminder but leaves the row unmarked, so the worker's next sweep pushes
      the same reminder to the same token again, whenever the worker's own date text
      also puts the slot inside the window. */
  lemma ApproveThenSweepRemindsTwice(t: Tables, c: Clock, id: ApptId)
    requires WellFormed(t)
    requires id in t.appts && t.appts[id].status == Pending
    requires Booking.ApproveInstant(c, t.appts[id]).At?
    requires 0 <= Booking.ApproveInstant(c, t.appts[id]).minute - c.now <= 60
    requires InReminderWindow(WorkerInstant(c, t.appts[id]), c.now)
    requires t.appts[id].user in t.users && t.users[t.appts[id].user] != ""
    ensures var t1 := Booking.ApproveStep(t, c, id).tables;
            var token := t.users[t.appts[id].user];
            && (exists m :: m in t1.outbox[|t.outbox|..] && m == Push(token, Booking.ReminderTitle, m.body))
            && (exists m :: m in SweepStep(t1, c).outbox[|t1.outbox|..] && m == Push(token, Booking.ReminderTitle, m.body))
  {
    var t1 := Booking.ApproveStep(t, c, id).tables;
    var a := t.appts[id];
    var token := t.users[a.user];
    BookingFacts.ApproveNearSlot(t, c, id);
    var instant := Push(token, Booking.ReminderTitle,
                        Booking.InstantReminderText(a.(status := Approved, reminderSent := false),
                                                    Booking.DoctorLabel(t.doctorNames, a.doctor)));
    assert t1.outbox[|t.outbox|..][2] == instant;
    assert t1.appts[id] == a.(status := Approved, reminderSent := false);
    assert Due(t1, c, id) && t1.users[t1.appts[id].user] != "";
    var again := PushFor(t1, c, id)[0];
    SweepPushesExactlyDue(t1, c, again);
    assert again in SweepStep(t1, c).outbox[|t1.outbox|..];
  }

  /** With the correction, a successful approval marks the row exactly when it pushed the
      instant reminder, and then the worker no longer selects the row: one reminder at most. */
  lemma ApproveOnceRemindsOnce(t: Tables, c: Clock, id: ApptId)
    requires Booking.ApproveOnceStep(t, c, id).outcome == Ok
    ensures var t1 := Booking.ApproveOnceStep(t, c, id).tables;
            var reminded := exists m :: m in t1.outbox[|t.outbox|..] && m.Push? && m.title == Booking.ReminderTitle;
            && id in t1.appts && t1.appts[id].status == Approved
            && (t1.appts[id].reminderSent <==> reminded)
            && (reminded ==> !Considered(t1, id) && PushFor(t1, c, id) == [])
  {
    var a := t.appts[id];
    var approved := a.(status := Approved, reminderSent := false);
    var at := Booking.ApproveInstant(c, a);
    var t1 := Booking.ApproveOnceStep(t, c, id).tables;
    var sent := Booking.ApprovalMessages(t, approved, at, c.now);
    assert t1.outbox[|t.outbox|..] == sent;
    assert (exists i :: 0 <= i < |sent| && sent[i].Push? && sent[i].title == Booking.ReminderTitle)
       <==> (exists m :: m in sent && m.Push? && m.title == Booking.ReminderTitle) by {
      forall m | m in sent && m.Push? && m.title == Booking.ReminderTitle
        ensures exists i :: 0 <= i < |sent| && sent[i].Push? && sent[i].title == Booking.ReminderTitle {
        var i :| 0 <= i < |sent| && sent[i] == m;
      }
    }
  }

  predicate EndsWith(s: string, suffix: string)
  {
    |suffix| <= |s| && s[|s| - |suffix|..] == suffix
  }

  /** A reminder goes to the user's token under the reminder title, and its text ends in
      " today" exactly when the slot falls on the current calendar day, in " tomorrow" otherwise. */
  lemma ReminderSaysToday(t: Tables, c: Clock, id: ApptId)
    requires |PushFor(t, c, id)| == 1
    ensures var m := PushFor(t, c, id)[0];
            var today := SameDay(WorkerInstant(c, t.appts[id]), c.now);
            && m.Push? && m.token == t.users[t.appts[id].user] && m.title == Booking.ReminderTitle
            && (EndsWith(m.body, " today") <==> today)
            && (EndsWith(m.body, " tomorrow") <==> !today)
  {
    var a := t.appts[id];
    var today := SameDay(WorkerInstant(c, a), c.now);
    var body := PushFor(t, c, id)[0].body;
    var service := if a.service == "" then "Appointment" else a.service;
    var doctor := if a.doctor in t.doctorNames && t.doctorNames[a.doctor] != "" then t.doctorNames[a.doctor] else "Doctor";
    var head := "Reminder: You have an appointment for " + service + " with " + doctor + " at " + a.time;
    var word := if today then " today" else " tomorrow";
    assert body == head + word;
    assert |head| >= 9;
    assert body[|body| - |word|..] == word;
    assert body[|body| - 1] == word[|word| - 1];
    assert EndsWith(body, " tomorrow") ==> body[|body| - 1] == 'w';
    assert EndsWith(body, " today") ==> body[|body| - 1] == 'y';
  }
}
