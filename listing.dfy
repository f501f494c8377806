/**
 * `SELECT ... FROM doctor_time_slots WHERE doctor_id = ? AND DATE(date) = ?
 * ORDER BY time_value ASC`, the slot listing the admin and patient routes share:
 * the rows of one doctor's date, ordered by their sortable time value. The
 * query leaves the order of rows with equal time values open; the contracts
 * here leave it open too.
 */
module SlotListing {
  import opened Tables

  predicate AllIn(slots: map<SlotId, Slot>, ids: seq<SlotId>)
  {
    forall i :: 0 <= i < |ids| ==> ids[i] in slots
  }

  /** The ids below `bound` whose rows match `f`, ascending. */
  function MatchingIds(slots: map<SlotId, Slot>, bound: nat, f: Filter): (ids: seq<SlotId>)
    ensures AllIn(slots, ids)
    ensures forall id :: id in ids <==> id < bound && id in slots && Matches(f, slots[id])
    ensures forall i, j :: 0 <= i < j < |ids| ==> ids[i] < ids[j]
  {
    if bound == 0 then []
    else
      MatchingIds(slots, bound - 1, f)
      + (if bound - 1 in slots && Matches(f, slots[bound - 1]) then [bound - 1] else [])
  }

  predicate SortedByTime(slots: map<SlotId, Slot>, ids: seq<SlotId>)
    requires AllIn(slots, ids)
  {
    forall i, j :: 0 <= i < j < |ids| ==> slots[ids[i]].timeValue <= slots[ids[j]].timeValue
  }

  /** Inserts `id` into a list ordered by time value, before the first row whose time value
      is at least its own. */
  function Insert(slots: map<SlotId, Slot>, id: SlotId, sorted: seq<SlotId>): (r: seq<SlotId>)
    requires id in slots && AllIn(slots, sorted) && SortedByTime(slots, sorted)
    ensures AllIn(slots, r) && SortedByTime(slots, r)
    ensures multiset(r) == multiset(sorted) + multiset{id}
    ensures forall x :: x in r ==> x == id || x in sorted
  {
    if sorted == [] then [id]
    else if slots[id].timeValue <= slots[sorted[0]].timeValue then [id] + sorted
    else
      var rest := Insert(slots, id, sorted[1..]);
      assert sorted == [sorted[0]] + sorted[1..];
      forall k | 0 <= k < |rest|
        ensures slots[sorted[0]].timeValue <= slots[rest[k]].timeValue
      {
        if rest[k] != id {
          assert rest[k] in rest;
          assert rest[k] in sorted[1..];
          var j :| 0 <= j < |sorted[1..]| && sorted[1..][j] == rest[k];
          assert sorted[j + 1] == rest[k];
        }
      }
      var r := [sorted[0]] + rest;
      assert forall k :: 1 <= k < |r| ==> r[k] == rest[k - 1];
      r
  }

  /** Orders ids by the time value of their rows. */
  function SortByTime(slots: map<SlotId, Slot>, ids: seq<SlotId>): (r: seq<SlotId>)
    requires AllIn(slots, ids)
    ensures AllIn(slots, r) && SortedByTime(slots, r)
    ensures multiset(r) == multiset(ids)
  {
    if ids == [] then []
    else
      assert ids == [ids[0]] + ids[1..];
      Insert(slots, ids[0], SortByTime(slots, ids[1..]))
  }

  /** The ids the listing query returns for one doctor's date, in the order it returns them. */
  function SlotsOn(t: Tables, doctor: DoctorId, date: string): (ids: seq<SlotId>)
    ensures AllIn(t.slots, ids) && SortedByTime(t.slots, ids)
    ensures multiset(ids) == multiset(MatchingIds(t.slots, t.nextSlot, OnDate(doctor, date)))
  {
    SortByTime(t.slots, MatchingIds(t.slots, t.nextSlot, OnDate(doctor, date)))
  }

  /** The listing holds exactly the rows of that doctor and date, each once. */
  lemma SlotsOnExactly(t: Tables, doctor: DoctorId, date: string)
    requires WellFormed(t)
    ensures forall id :: id in SlotsOn(t, doctor, date) <==>
              id in t.slots && t.slots[id].doctor == doctor && t.slots[id].date == date
    ensures forall id :: multiset(SlotsOn(t, doctor, date))[id] <= 1
  {
    var m := MatchingIds(t.slots, t.nextSlot, OnDate(doctor, date));
    var ids := SlotsOn(t, doctor, date);
    forall id ensures id in ids <==> id in m {
      assert id in ids <==> id in multiset(ids);
      assert id in m <==> id in multiset(m);
    }
    forall id ensures multiset(m)[id] <= 1 {
      AscendingOnce(m, id);
    }
  }

  lemma {:induction false} AscendingOnce(s: seq<SlotId>, x: SlotId)
    requires forall i, j :: 0 <= i < j < |s| ==> s[i] < s[j]
    ensures multiset(s)[x] <= 1
  {
    if s != [] {
      var last := s[|s| - 1];
      var init := s[..|s| - 1];
      assert s == init + [last];
      AscendingOnce(init, x);
      if x == last {
        assert forall k :: 0 <= k < |init| ==> init[k] == s[k] && s[k] < s[|s| - 1];
        assert x !in init;
      }
    }
  }
}
