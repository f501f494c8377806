/**
 * What the lifecycle handlers guarantee, and what they do not: the order of
 * the checks, all-or-nothing effects, the capacity invariant, the counter moves
 * of each transition and the worked scenarios of the booking engine.
 */
module BookingFacts {
  import opened Wrappers
  import opened Clocks
  import opened Tables
  import opened Booking
  import Holidays

  // ----- create -----

  /** Create rejects in order: a past date/time, then a holiday, then a missing field, and
      a rejection changes no table. */
  lemma CreateChecksInOrder(t: Tables, c: Clock, r: Request)
    ensures PastSlot(c, r.date, r.time) ==> CreateStep(t, c, r) == Step(t, Fail(PastTime))
    ensures !PastSlot(c, r.date, r.time) && Holidays.IsHoliday(r.date) ==>
              CreateStep(t, c, r) == Step(t, Fail(Holiday))
    ensures !PastSlot(c, r.date, r.time) && !Holidays.IsHoliday(r.date) && MissingRequest(r) ==>
              CreateStep(t, c, r) == Step(t, Fail(MissingFields))
  {
  }

  /** A failing create leaves every table as it was. */
  lemma CreateFailureChangesNothing(t: Tables, c: Clock, r: Request)
    ensures CreateStep(t, c, r).outcome.Fail? ==> CreateStep(t, c, r).tables == t
  {
  }

  /** The slot a create reserves: the lowest-id row at the requested doctor, date and time. */
  function Chosen(t: Tables, r: Request): Option<SlotId>
  {
    FirstWhere(t.slots, t.nextSlot, AtTime(r.doctor, r.date, r.time))
  }

  /** Create succeeds exactly when every check passes and the chosen slot has room. */
  lemma CreateSucceedsIff(t: Tables, c: Clock, r: Request)
    ensures CreateStep(t, c, r).outcome == Ok <==>
              && !PastSlot(c, r.date, r.time)
              && !Holidays.IsHoliday(r.date)
              && !MissingRequest(r)
              && Chosen(t, r).Some?
              && t.slots[Chosen(t, r).value].booked < t.slots[Chosen(t, r).value].total
  {
  }

  /** A missing slot and a full slot are told apart. */
  lemma CreateSlotFailures(t: Tables, c: Clock, r: Request)
    requires !PastSlot(c, r.date, r.time) && !Holidays.IsHoliday(r.date) && !MissingRequest(r)
    ensures Chosen(t, r).None? ==> CreateStep(t, c, r).outcome == Fail(SlotNotFound)
    ensures (forall s :: s in t.slots && s < t.nextSlot ==> !Matches(AtTime(r.doctor, r.date, r.time), t.slots[s]))
              ==> CreateStep(t, c, r).outcome == Fail(SlotNotFound)
    ensures (Chosen(t, r).Some? && t.slots[Chosen(t, r).value].booked >= t.slots[Chosen(t, r).value].total)
              ==> CreateStep(t, c, r).outcome == Fail(SlotFull)
  {
  }

  /** A successful create adds exactly one pending appointment under a fresh id, adds one to
      the chosen slot and to its day row, and changes nothing else. */
  lemma CreateEffect(t: Tables, c: Clock, r: Request)
    requires WellFormed(t)
    requires CreateStep(t, c, r).outcome == Ok
    ensures var t' := CreateStep(t, c, r).tables; var s := Chosen(t, r).value;
      && t.nextAppt !in t.appts
      && t'.appts == t.appts[t.nextAppt := NewAppt(r)]
      && t'.appts[t.nextAppt].status == Pending
      && t'.nextAppt == t.nextAppt + 1 && t'.nextSlot == t.nextSlot
      && s in t.slots && Matches(AtTime(r.doctor, r.date, r.time), t.slots[s])
      && SameRows(t.slots, t'.slots)
      && (forall id :: id in t.slots ==>
            t'.slots[id].booked == t.slots[id].booked + (if id == s then 1 else 0)
            && t'.slots[id].total == t.slots[id].total)
      && t'.days.Keys == t.days.Keys
      && (forall k :: k in t.days ==>
            t'.days[k] == if k == (r.doctor, r.date) then t.days[k].(booked := t.days[k].booked + 1) else t.days[k])
      && t'.users == t.users && t'.doctorNames == t.doctorNames && t'.outbox == t.outbox
  {
  }

  /** Create keeps `booked <= total` on every slot, and keeps the ids below their counters. */
  lemma CreateKeepsInvariants(t: Tables, c: Clock, r: Request)
    requires WellFormed(t) && WithinCapacity(t.slots)
    ensures WellFormed(CreateStep(t, c, r).tables)
    ensures WithinCapacity(CreateStep(t, c, r).tables.slots)
  {
    if CreateStep(t, c, r).outcome == Ok {
      ReserveKeepsCapacity(t.slots, Chosen(t, r).value);
    }
  }

  /** A holiday refuses the booking whatever the slots hold. */
  lemma HolidayAlwaysRefused(t: Tables, c: Clock, r: Request)
    requires Holidays.IsHoliday(r.date)
    ensures CreateStep(t, c, r).outcome != Ok
    ensures CreateStep(t, c, r).tables == t
  {
  }

  /** Repeated bookings of one slot: `creates` requests, each fed the tables the previous
      one left. Returns the final tables and the number that succeeded. */
  function CreateMany(t: Tables, c: Clock, rs: seq<Request>): (Tables, nat)
    decreases |rs|
  {
    if rs == [] then (t, 0)
    else
      var step := CreateStep(t, c, rs[0]);
      var rest := CreateMany(step.tables, c, rs[1..]);
      (rest.0, rest.1 + (if step.outcome == Ok then 1 else 0))
  }

  /** All requests are valid bookings of the same doctor, date and time. */
  predicate SameSlotRequests(c: Clock, rs: seq<Request>, doctor: DoctorId, date: string, time: string)
  {
    forall i :: 0 <= i < |rs| ==>
      && rs[i].doctor == doctor && rs[i].date == date && rs[i].time == time
      && !PastSlot(c, date, time) && !Holidays.IsHoliday(date) && !MissingRequest(rs[i])
  }

  /** At most the free capacity of a slot is ever handed out: of n valid requests for a slot
      with `booked = b <= total = N`, exactly min(N - b, n) succeed, and the slot ends with
      min(N, b + n) reservations. */
  lemma {:induction false} CreateManyBounded(t: Tables, c: Clock, rs: seq<Request>,
                                              doctor: DoctorId, date: string, time: string, s: SlotId)
    requires SameSlotRequests(c, rs, doctor, date, time)
    requires FirstWhere(t.slots, t.nextSlot, AtTime(doctor, date, time)) == Some(s)
    requires 0 <= t.slots[s].booked <= t.slots[s].total
    ensures var (t', n) := CreateMany(t, c, rs);
      && s in t'.slots
      && n == Min(t.slots[s].total - t.slots[s].booked, |rs|)
      && t'.slots[s].booked == Min(t.slots[s].total, t.slots[s].booked + |rs|)
      && t'.slots[s].total == t.slots[s].total
    decreases |rs|
  {
    if rs != [] {
      var step := CreateStep(t, c, rs[0]);
      var t1 := step.tables;
      assert rs[0].doctor == doctor && rs[0].date == date && rs[0].time == time;
      assert !MissingRequest(rs[0]);
      assert SameRows(t.slots, t1.slots) && t1.nextSlot == t.nextSlot by {
        if step.outcome == Ok {
          ReserveKeepsCapacity(t.slots, s);
        }
      }
      FirstWhereIgnoresCounters(t.slots, t1.slots, t.nextSlot, AtTime(doctor, date, time));
      assert SameSlotRequests(c, rs[1..], doctor, date, time) by {
        forall i | 0 <= i < |rs[1..]| ensures rs[1..][i] == rs[i + 1] { }
      }
      CreateManyBounded(t1, c, rs[1..], doctor, date, time, s);
    }
  }

  function Min(a: int, b: int): int
  {
    if a <= b then a else b
  }

  // ----- edit -----

  /** A failing edit leaves every table as it was: the old slot's release is rolled back. */
  lemma EditFailureChangesNothing(t: Tables, c: Clock, id: ApptId, ch: Changes)
    ensures EditStep(t, c, id, ch).outcome.Fail? ==> EditStep(t, c, id, ch).tables == t
  {
  }

  /** Only a pending appointment can be edited, and an unknown id is reported as such. */
  lemma EditOnlyPending(t: Tables, c: Clock, id: ApptId, ch: Changes)
    requires !PastSlot(c, ch.date, ch.time) && !MissingChanges(ch)
    ensures id !in t.appts ==> EditStep(t, c, id, ch).outcome == Fail(NotFound)
    ensures id in t.appts && t.appts[id].status != Pending ==> EditStep(t, c, id, ch).outcome == Fail(NotPending)
  {
  }

  /** The slot an edit reserves: the lowest-id row at the new doctor, date and time. */
  function EditTarget(t: Tables, id: ApptId, ch: Changes): Option<SlotId>
    requires id in t.appts
  {
    var a := t.appts[id];
    FirstWhere(ReleaseAt(t.slots, a.doctor, a.date, a.time), t.nextSlot, AtTime(ch.doctor, ch.date, ch.time))
  }

  /** The net counter move of a successful edit: every row at the old doctor, date and time
      with a reservation gives one back, the new slot takes one, the appointment gets the
      new details with `reminder_sent` cleared, and every capacity, the day rows, the users
      and the messages stay as they were. */
  lemma EditEffect(t: Tables, c: Clock, id: ApptId, ch: Changes)
    requires EditStep(t, c, id, ch).outcome == Ok
    ensures id in t.appts && t.appts[id].status == Pending
    ensures var t' := EditStep(t, c, id, ch).tables; var a := t.appts[id]; var s := EditTarget(t, id, ch).value;
      && s in t.slots && Matches(AtTime(ch.doctor, ch.date, ch.time), t.slots[s])
      && SameRows(t.slots, t'.slots)
      && (forall k :: k in t.slots ==>
            t'.slots[k].booked == t.slots[k].booked
              - (if Matches(AtTime(a.doctor, a.date, a.time), t.slots[k]) && t.slots[k].booked > 0 then 1 else 0)
              + (if k == s then 1 else 0)
            && t'.slots[k].total == t.slots[k].total)
      && t'.appts == t.appts[id := Edited(a, ch)]
      && t'.appts[id].status == Pending && !t'.appts[id].reminderSent
      && t'.days == t.days && t'.outbox == t.outbox
      && t'.users == t.users && t'.doctorNames == t.doctorNames
      && t'.nextAppt == t.nextAppt && t'.nextSlot == t.nextSlot
  {
    var a := t.appts[id];
    ReleaseAtBounds(t.slots, a.doctor, a.date, a.time);
  }

  /** Edit keeps `booked <= total`, and the ids below their counters. */
  lemma EditKeepsInvariants(t: Tables, c: Clock, id: ApptId, ch: Changes)
    requires WellFormed(t) && WithinCapacity(t.slots)
    ensures WellFormed(EditStep(t, c, id, ch).tables)
    ensures WithinCapacity(EditStep(t, c, id, ch).tables.slots)
  {
    if EditStep(t, c, id, ch).outcome == Ok {
      var a := t.appts[id];
      var released := ReleaseAt(t.slots, a.doctor, a.date, a.time);
      ReleaseAtBounds(t.slots, a.doctor, a.date, a.time);
      ReserveKeepsCapacity(released, EditTarget(t, id, ch).value);
    }
  }

  /** Editing a pending appointment without moving it keeps its slot's counter, and succeeds
      even when that slot is full: the release frees the unit the reserve then takes back. */
  lemma EditInPlace(t: Tables, c: Clock, id: ApptId, ch: Changes, s: SlotId)
    requires id in t.appts && t.appts[id].status == Pending
    requires ch.doctor == t.appts[id].doctor && ch.date == t.appts[id].date && ch.time == t.appts[id].time
    requires !PastSlot(c, ch.date, ch.time) && !MissingChanges(ch)
    requires WithinCapacity(t.slots)
    requires FirstWhere(t.slots, t.nextSlot, AtTime(ch.doctor, ch.date, ch.time)) == Some(s)
    requires t.slots[s].booked > 0
    ensures EditStep(t, c, id, ch).outcome == Ok
    ensures EditStep(t, c, id, ch).tables.slots[s] == t.slots[s]
  {
    var a := t.appts[id];
    var released := ReleaseAt(t.slots, a.doctor, a.date, a.time);
    ReleaseAtBounds(t.slots, a.doctor, a.date, a.time);
    FirstWhereIgnoresCounters(t.slots, released, t.nextSlot, AtTime(ch.doctor, ch.date, ch.time));
  }

  /** Rescheduling onto a full slot fails and leaves the old reservation in place. */
  lemma EditToFullSlot(t: Tables, c: Clock, id: ApptId, ch: Changes, s: SlotId)
    requires id in t.appts && t.appts[id].status == Pending
    requires !PastSlot(c, ch.date, ch.time) && !MissingChanges(ch)
    requires FirstWhere(t.slots, t.nextSlot, AtTime(ch.doctor, ch.date, ch.time)) == Some(s)
    requires !Matches(AtTime(t.appts[id].doctor, t.appts[id].date, t.appts[id].time), t.slots[s])
    requires t.slots[s].booked >= t.slots[s].total
    ensures EditStep(t, c, id, ch) == Step(t, Fail(SlotFull))
  {
    var a := t.appts[id];
    var released := ReleaseAt(t.slots, a.doctor, a.date, a.time);
    ReleaseAtBounds(t.slots, a.doctor, a.date, a.time);
    FirstWhereIgnoresCounters(t.slots, released, t.nextSlot, AtTime(ch.doctor, ch.date, ch.time));
  }

  // ----- cancel -----

  /** Cancel rejects an unknown id, then a past appointment, whatever its status, then a
      status other than pending or approved; a rejection changes no table. */
  lemma CancelChecksInOrder(t: Tables, c: Clock, id: ApptId)
    ensures id !in t.appts ==> CancelStep(t, c, id) == Step(t, Fail(NotFound))
    ensures id in t.appts && PastAppt(c, t.appts[id]) ==>
              CancelStep(t, c, id) == Step(t, Fail(PastTime))
    ensures id in t.appts && !PastAppt(c, t.appts[id])
            && t.appts[id].status !in {Pending, Approved} ==>
              CancelStep(t, c, id) == Step(t, Fail(CannotCancel))
    ensures CancelStep(t, c, id).outcome.Fail? ==> CancelStep(t, c, id).tables == t
  {
  }

  /** A successful cancel marks the row cancelled with `arrived` cleared and `reminder_sent`
      set, releases the slot (never below zero) and keeps every capacity, takes one off that
      day row without a guard and leaves every other day row as it was, and sends the
      cancellation push when the user has a token; users and doctors are untouched. */
  lemma CancelEffect(t: Tables, c: Clock, id: ApptId)
    requires CancelStep(t, c, id).outcome == Ok
    ensures id in t.appts && t.appts[id].status in {Pending, Approved}
    ensures var t' := CancelStep(t, c, id).tables; var a := t.appts[id];
      && t'.appts == t.appts[id := a.(status := Cancelled, arrived := false, reminderSent := true)]
      && SameRows(t.slots, t'.slots)
      && (forall k :: k in t.slots ==>
            t'.slots[k].booked == t.slots[k].booked
              - (if Matches(AtTime(a.doctor, a.date, a.time), t.slots[k]) && t.slots[k].booked > 0 then 1 else 0)
            && t'.slots[k].total == t.slots[k].total)
      && t'.days.Keys == t.days.Keys
      && ((a.doctor, a.date) in t.days ==>
            t'.days[(a.doctor, a.date)] == t.days[(a.doctor, a.date)].(booked := t.days[(a.doctor, a.date)].booked - 1))
      && (forall key :: key in t.days && key != (a.doctor, a.date) ==> t'.days[key] == t.days[key])
      && t'.outbox == t.outbox + PushTo(t.users, a.user, CancelTitle, CancelBody)
      && t'.users == t.users && t'.doctorNames == t.doctorNames
      && t'.nextAppt == t.nextAppt && t'.nextSlot == t.nextSlot
  {
    var a := t.appts[id];
    ReleaseAtBounds(t.slots, a.doctor, a.date, a.time);
  }

  /** Cancel keeps `booked <= total` and never drives a slot below zero. */
  lemma CancelKeepsInvariants(t: Tables, c: Clock, id: ApptId)
    requires WellFormed(t) && WithinCapacity(t.slots)
    ensures WellFormed(CancelStep(t, c, id).tables)
    ensures WithinCapacity(CancelStep(t, c, id).tables.slots)
  {
    if id in t.appts {
      var a := t.appts[id];
      ReleaseAtBounds(t.slots, a.doctor, a.date, a.time);
    }
  }

  /** The day decrement is unguarded: cancelling when the day row shows no bookings drives it
      to -1. */
  lemma CancelDayCanGoNegative(t: Tables, c: Clock, id: ApptId)
    requires CancelStep(t, c, id).outcome == Ok
    requires (t.appts[id].doctor, t.appts[id].date) in t.days
    requires t.days[(t.appts[id].doctor, t.appts[id].date)].booked == 0
    ensures CancelStep(t, c, id).tables.days[(t.appts[id].doctor, t.appts[id].date)].booked == -1
  {
  }

  /** The release is idempotent on a free slot, and a second cancel of the same appointment
      is refused, so it releases nothing twice. */
  lemma CancelTwice(t: Tables, c: Clock, id: ApptId)
    requires CancelStep(t, c, id).outcome == Ok
    ensures var t' := CancelStep(t, c, id).tables;
      CancelStep(t', c, id) == Step(t', Fail(CannotCancel))
  {
  }

  lemma ReleaseOfFreeSlot(slots: map<SlotId, Slot>, doctor: DoctorId, date: string, time: string, s: SlotId)
    requires s in slots && slots[s].booked == 0
    ensures ReleaseAt(slots, doctor, date, time)[s] == slots[s]
    ensures ReleaseAt(ReleaseAt(slots, doctor, date, time), doctor, date, time)[s] == slots[s]
  {
  }

  // ----- approve -----

  /** Approve rejects an unknown id, then a past appointment, then anything not pending (the
      conditional update hits no row); a rejection changes no table. */
  lemma ApproveChecksInOrder(t: Tables, c: Clock, id: ApptId)
    ensures id !in t.appts ==> ApproveStep(t, c, id) == Step(t, Fail(NotFound))
    ensures id in t.appts && Before(ApproveInstant(c, t.appts[id]), c.now) ==>
              ApproveStep(t, c, id) == Step(t, Fail(PastTime))
    ensures id in t.appts && !Before(ApproveInstant(c, t.appts[id]), c.now) && t.appts[id].status != Pending ==>
              ApproveStep(t, c, id) == Step(t, Fail(CannotApprove))
    ensures ApproveStep(t, c, id).outcome.Fail? ==> ApproveStep(t, c, id).tables == t
  {
  }

  /** A successful approve moves pending to approved with `reminder_sent` cleared, touches no
      counter, records one inbox entry when the user row exists, and follows it with the
      approval push exactly when the user has a token. */
  lemma ApproveEffect(t: Tables, c: Clock, id: ApptId)
    requires ApproveStep(t, c, id).outcome == Ok
    ensures id in t.appts && t.appts[id].status == Pending
    ensures var t' := ApproveStep(t, c, id).tables; var a := t.appts[id];
      && t'.appts == t.appts[id := a.(status := Approved, reminderSent := false)]
      && t'.slots == t.slots && t'.days == t.days
      && |t'.outbox| >= |t.outbox| && t'.outbox[..|t.outbox|] == t.outbox
      && (a.user in t.users <==> |t'.outbox| > |t.outbox|)
      && (a.user in t.users ==> t'.outbox[|t.outbox|] == Inbox(a.user, ApprovedTitle, ApprovedBody))
      && (a.user in t.users && t.users[a.user] != "" ==>
            |t'.outbox| >= |t.outbox| + 2
            && t'.outbox[|t.outbox| + 1] == Push(t.users[a.user], ApprovedPushTitle, ApprovedBody))
      && t'.users == t.users && t'.doctorNames == t.doctorNames
      && t'.nextAppt == t.nextAppt && t'.nextSlot == t.nextSlot
  {
  }

  /** Each new message comes exactly when its condition holds: the inbox entry when the user
      row exists, the approval push when the user also has a token, and the instant reminder
      when, besides, the appointment is due within -10..+60 minutes. */
  lemma ApproveInstantReminder(t: Tables, c: Clock, id: ApptId)
    requires ApproveStep(t, c, id).outcome == Ok
    ensures var t' := ApproveStep(t, c, id).tables; var a := t.appts[id];
      && |t'.outbox| >= |t.outbox|
      && ((exists i :: |t.outbox| <= i < |t'.outbox| && t'.outbox[i].Inbox?)
          <==> a.user in t.users)
      && ((exists i :: |t.outbox| <= i < |t'.outbox| && t'.outbox[i].Push? && t'.outbox[i].title == ApprovedPushTitle)
          <==> a.user in t.users && t.users[a.user] != "")
      && ((exists i :: |t.outbox| <= i < |t'.outbox| && t'.outbox[i].Push? && t'.outbox[i].title == ReminderTitle)
          <==> a.user in t.users && t.users[a.user] != "" && InReminderWindow(ApproveInstant(c, a), c.now))
  {
    var a := t.appts[id];
    var approved := a.(status := Approved, reminderSent := false);
    var m := ApprovalMessages(t, approved, ApproveInstant(c, a), c.now);
    var t' := ApproveStep(t, c, id).tables;
    assert t'.outbox == t.outbox + m;
    forall i | |t.outbox| <= i < |t'.outbox| ensures t'.outbox[i] == m[i - |t.outbox|] { }
    if exists i :: 0 <= i < |m| && m[i].Push? && m[i].title == ReminderTitle {
      var i :| 0 <= i < |m| && m[i].Push? && m[i].title == ReminderTitle;
      assert t'.outbox[i + |t.outbox|] == m[i];
    }
    if exists i :: 0 <= i < |m| && m[i].Push? && m[i].title == ApprovedPushTitle {
      var i :| 0 <= i < |m| && m[i].Push? && m[i].title == ApprovedPushTitle;
      assert t'.outbox[i + |t.outbox|] == m[i];
    }
    if a.user in t.users {
      assert t'.outbox[|t.outbox|] == m[0];
    }
  }

  /** Approving an appointment due within the next hour, for a user with a token, produces
      the inbox entry, the approval push and the instant reminder, in that order. */
  lemma ApproveNearSlot(t: Tables, c: Clock, id: ApptId)
    requires id in t.appts && t.appts[id].status == Pending
    requires ApproveInstant(c, t.appts[id]).At?
    requires 0 <= ApproveInstant(c, t.appts[id]).minute - c.now <= 60
    requires t.appts[id].user in t.users && t.users[t.appts[id].user] != ""
    ensures ApproveStep(t, c, id).outcome == Ok
    ensures var a := t.appts[id]; var token := t.users[a.user];
      ApproveStep(t, c, id).tables.outbox == t.outbox + [
        Inbox(a.user, ApprovedTitle, ApprovedBody),
        Push(token, ApprovedPushTitle, ApprovedBody),
        Push(token, ReminderTitle, InstantReminderText(a.(status := Approved, reminderSent := false), DoctorLabel(t.doctorNames, a.doctor)))]
  {
    var a := t.appts[id];
    var approved := a.(status := Approved, reminderSent := false);
    var at := ApproveInstant(c, a);
    assert ApproveStep(t, c, id).tables.outbox == t.outbox + ApprovalMessages(t, approved, at, c.now);
  }

  /** The past check runs first, so the part of the window before the appointment time is
      never reached: an instant reminder is only sent for an appointment 0..60 minutes ahead. */
  lemma ApproveReminderOnlyAhead(t: Tables, c: Clock, id: ApptId)
    requires ApproveStep(t, c, id).outcome == Ok
    requires InReminderWindow(ApproveInstant(c, t.appts[id]), c.now)
    ensures 0 <= ApproveInstant(c, t.appts[id]).minute - c.now <= 60
  {
  }

  // ----- complete and status -----

  /** Complete succeeds exactly from approved (an arrived appointment is refused), sets
      `arrived` to 0 and `reminder_sent` to 1, and changes no counter. */
  lemma CompleteIff(t: Tables, id: ApptId)
    ensures CompleteStep(t, id).outcome == Ok <==> id in t.appts && t.appts[id].status == Approved
    ensures CompleteStep(t, id).outcome.Fail? ==> CompleteStep(t, id) == Step(t, Fail(CannotComplete))
    ensures CompleteStep(t, id).outcome == Ok ==>
      var t' := CompleteStep(t, id).tables;
      && t'.appts == t.appts[id := t.appts[id].(status := Completed, arrived := false, reminderSent := true)]
      && t'.slots == t.slots && t'.days == t.days
      && t'.outbox == t.outbox + PushTo(t.users, t.appts[id].user, CompletedTitle, CompletedBody)
  {
  }

  /** The status endpoint accepts exactly the three names, overwrites whatever status the row
      had, and touches no other column, no counter and no message. */
  lemma SetStatusEffect(t: Tables, id: ApptId, status: string)
    ensures SetStatusStep(t, id, status).outcome == Ok <==> status in ["arrived", "no_show", "completed"]
    ensures var t' := SetStatusStep(t, id, status).tables;
      && t'.slots == t.slots && t'.days == t.days && t'.outbox == t.outbox
      && t'.appts.Keys == t.appts.Keys
      && (forall k :: k in t.appts && k != id ==> t'.appts[k] == t.appts[k])
      && (id in t.appts && SetStatusStep(t, id, status).outcome == Ok ==>
            t'.appts[id] == t.appts[id].(status := ParseStatus(status).value))
      && (SetStatusStep(t, id, status).outcome.Fail? || id !in t.appts ==> t' == t)
  {
  }

  // ----- the worked scenario -----

  /** A slot with room for one: X books it, Y is turned away as full, X cancels and frees it,
      and Y's second attempt succeeds. */
  lemma BookCancelRebook(t: Tables, c: Clock, x: Request, y: Request, s: SlotId)
    requires WellFormed(t)
    requires x.doctor == y.doctor && x.date == y.date && x.time == y.time
    requires !PastSlot(c, x.date, x.time) && !Holidays.IsHoliday(x.date)
    requires !MissingRequest(x) && !MissingRequest(y)
    requires !PastAppt(c, NewAppt(x))
    requires FirstWhere(t.slots, t.nextSlot, AtTime(x.doctor, x.date, x.time)) == Some(s)
    requires t.slots[s].total == 1 && t.slots[s].booked == 0
    ensures var s1 := CreateStep(t, c, x);
      var s2 := CreateStep(s1.tables, c, y);
      var s3 := CancelStep(s2.tables, c, t.nextAppt);
      var s4 := CreateStep(s3.tables, c, y);
      && s1.outcome == Ok && s1.tables.slots[s].booked == 1
      && s2.outcome == Fail(SlotFull)
      && s3.outcome == Ok && s3.tables.slots[s].booked == 0
      && s4.outcome == Ok && s4.tables.slots[s].booked == 1
  {
    var f := AtTime(x.doctor, x.date, x.time);
    var s1 := CreateStep(t, c, x);
    ReserveKeepsCapacity(t.slots, s);
    FirstWhereIgnoresCounters(t.slots, s1.tables.slots, t.nextSlot, f);
    var s2 := CreateStep(s1.tables, c, y);
    assert s2.tables == s1.tables;
    assert s1.tables.appts[t.nextAppt] == NewAppt(x);
    var s3 := CancelStep(s2.tables, c, t.nextAppt);
    ReleaseAtBounds(s2.tables.slots, x.doctor, x.date, x.time);
    FirstWhereIgnoresCounters(s2.tables.slots, s3.tables.slots, t.nextSlot, f);
  }

  // ----- the double-booking rule of the create route's header comment -----

  /** Two appointments that hold the same slot for the same user, both still live. */
  predicate SameHold(a: Appt, b: Appt)
  {
    && (a.status == Pending || a.status == Approved)
    && (b.status == Pending || b.status == Approved)
    && a.user == b.user && a.doctor == b.doctor && a.date == b.date && a.time == b.time
  }

  /** No user holds the same doctor, date and time twice. */
  predicate NoDoubleBooking(t: Tables)
  {
    forall i, j :: i in t.appts && j in t.appts && i != j ==> !SameHold(t.appts[i], t.appts[j])
  }

  /** The request's user already holds a live appointment at the requested doctor, date and time. */
  predicate AlreadyBooked(t: Tables, r: Request)
  {
    exists id :: id in t.appts && SameHold(t.appts[id], NewAppt(r))
  }

  /** As written: the same valid request sent twice to a slot with room for two books it twice. */
  lemma SameUserBooksSameSlotTwice(t: Tables, c: Clock, r: Request)
    requires WellFormed(t)
    requires CreateStep(t, c, r).outcome == Ok
    requires t.slots[Chosen(t, r).value].booked + 1 < t.slots[Chosen(t, r).value].total
    ensures var once := CreateStep(t, c, r).tables;
            && CreateStep(once, c, r).outcome == Ok
            && !NoDoubleBooking(CreateStep(once, c, r).tables)
  {
    var s := Chosen(t, r).value;
    var once := CreateStep(t, c, r).tables;
    ReserveKeepsCapacity(t.slots, s);
    FirstWhereIgnoresCounters(t.slots, once.slots, t.nextSlot, AtTime(r.doctor, r.date, r.time));
    var twice := CreateStep(once, c, r).tables;
    assert twice.appts[t.nextAppt] == NewAppt(r) && twice.appts[t.nextAppt + 1] == NewAppt(r);
  }

  /** The create route with the double-booking check its header comment promises: a request
      that would otherwise succeed is refused when the user already holds that slot. */
  function CreateOnceStep(t: Tables, c: Clock, r: Request): (st: Step)
    ensures st.outcome == Ok ==> !AlreadyBooked(t, r)
    ensures st.outcome != Fail(DuplicateBooking) ==> st == CreateStep(t, c, r)
    ensures st.outcome == Fail(DuplicateBooking) ==> st.tables == t && CreateStep(t, c, r).outcome != Fail(PastTime)
  {
    if !PastSlot(c, r.date, r.time) && !Holidays.IsHoliday(r.date) && !MissingRequest(r) && AlreadyBooked(t, r)
    then Step(t, Fail(DuplicateBooking))
    else CreateStep(t, c, r)
  }

  /** With the check, create keeps every user to at most one live hold per slot. */
  lemma CreateOnceKeepsNoDoubleBooking(t: Tables, c: Clock, r: Request)
    requires WellFormed(t) && NoDoubleBooking(t)
    ensures NoDoubleBooking(CreateOnceStep(t, c, r).tables)
  {
    var st := CreateOnceStep(t, c, r);
    if st.outcome == Ok {
      CreateEffect(t, c, r);
      var t' := st.tables;
      forall i, j | i in t'.appts && j in t'.appts && i != j ensures !SameHold(t'.appts[i], t'.appts[j]) {
        if i == t.nextAppt {
          assert !SameHold(t.appts[j], NewAppt(r));
        } else if j == t.nextAppt {
          assert !SameHold(t.appts[i], NewAppt(r));
        }
      }
    }
  }
}
