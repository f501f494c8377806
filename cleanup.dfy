/**
 * utils/cleanupScheduler.js: the daily cleanup. Two bulk updates: every approved
 * appointment whose date and time have passed becomes completed (and not
 * arrived), and every availability row dated before today is marked expired.
 */
module Cleanup {
  import opened Clocks
  import opened Tables
  import Booking

  /** The first update's WHERE clause: approved, and `date + " " + time` before now. */
  predicate Overdue(c: Clock, a: Appt)
  {
    a.status == Approved && Booking.PastSlot(c, a.date, a.time)
  }

  /** `UPDATE appointments SET status = 'completed', arrived = 0 WHERE <Overdue>`. */
  function CompleteOverdue(c: Clock, appts: map<ApptId, Appt>): (r: map<ApptId, Appt>)
    ensures r.Keys == appts.Keys
  {
    map id | id in appts :: if Overdue(c, appts[id]) then appts[id].(status := Completed, arrived := false) else appts[id]
  }

  /** The second update's WHERE clause: the row's date is before today. */
  predicate Stale(c: Clock, key: (DoctorId, string))
  {
    BeforeToday(c.parse(key.1), c.now)
  }

  /** `UPDATE doctor_availability SET status = 'expired' WHERE date < CURDATE()`. */
  function ExpireDays(c: Clock, days: map<(DoctorId, string), Day>): (r: map<(DoctorId, string), Day>)
    ensures r.Keys == days.Keys
  {
    map k | k in days :: if Stale(c, k) then days[k].(expired := true) else days[k]
  }

  /** The tables after one cleanup run at `c.now`. */
  function CleanupStep(t: Tables, c: Clock): Tables
  {
    t.(appts := CompleteOverdue(c, t.appts), days := ExpireDays(c, t.days))
  }

  /** `runDailyCleanup`: the two updates, one after the other. */
  method RunDailyCleanup(db: Database, c: Clock)
    requires db.Valid()
    modifies db
    ensures db.Valid()
    ensures db.Snapshot() == CleanupStep(old(db.Snapshot()), c)
  {
    db.appts := CompleteOverdue(c, db.appts);
    db.days := ExpireDays(c, db.days);
  }

  /** Each appointment after the cleanup: an overdue one is completed and not arrived, and
      only its status and arrival flag differ; every other appointment is unchanged. */
  lemma CleanupAppointment(t: Tables, c: Clock, id: ApptId)
    requires id in t.appts
    ensures var a := t.appts[id]; var a' := CleanupStep(t, c).appts[id];
            && (Overdue(c, a) ==> a'.status == Completed && !a'.arrived)
            && (!Overdue(c, a) ==> a' == a)
            && a'.(status := a.status, arrived := a.arrived) == a
  {
  }

  /** After the cleanup no approved appointment is left in the past. */
  lemma NothingOverdueAfter(t: Tables, c: Clock)
    ensures forall id :: id in CleanupStep(t, c).appts ==> !Overdue(c, CleanupStep(t, c).appts[id])
  {
  }

  /** Each availability row after the cleanup: a row dated before today is expired, and its
      closed flag and counters are kept; every other row is unchanged. */
  lemma CleanupDay(t: Tables, c: Clock, key: (DoctorId, string))
    requires key in t.days
    ensures var d := t.days[key]; var d' := CleanupStep(t, c).days[key];
            && (Stale(c, key) ==> d' == d.(expired := true))
            && (!Stale(c, key) ==> d' == d)
  {
  }

  /** The cleanup touches neither the slots, the users, the outbox nor the id counters, and
      keeps the ids of every table below their counters. */
  lemma CleanupFrame(t: Tables, c: Clock)
    requires WellFormed(t)
    ensures var t' := CleanupStep(t, c);
            && t'.slots == t.slots && t'.users == t.users && t'.outbox == t.outbox
            && t'.nextSlot == t.nextSlot && t'.nextAppt == t.nextAppt
            && WellFormed(t')
  {
  }

  /** Running the cleanup twice at the same instant is the same as running it once. */
  lemma CleanupIdempotent(t: Tables, c: Clock)
    ensures CleanupStep(CleanupStep(t, c), c) == CleanupStep(t, c)
  {
    var t1 := CleanupStep(t, c);
    assert CompleteOverdue(c, t1.appts) == t1.appts;
    assert ExpireDays(c, t1.days) == t1.days;
  }
}
