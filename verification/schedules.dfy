/** `SchedulesAPI` of src/services/api/schedules-api.ts: weekly meetings of a
    course, with a time-format check and an overlap check on create only. */
module Schedules {
  import opened ApiResult
  import opened Seqs
  import opened TimeOfDay
  import KeyedStore

  datatype Day = Monday | Tuesday | Wednesday | Thursday | Friday | Saturday | Sunday

  /** A meeting.  `classroomId` is not part of the declared interface, but the
      course form and the full-course join write and read `classroom_id` on
      schedule records; the seed records do not carry one (`None`). */
  datatype Schedule = Schedule(id: int, courseId: int, classroomId: Option<int>, day: Day,
                               start: string, end: string)

  /** `Partial<Schedule>`. */
  datatype SchedulePatch = SchedulePatch(id: Option<int>, courseId: Option<int>,
                                         classroomId: Option<Option<int>>, day: Option<Day>,
                                         start: Option<string>, end: Option<string>)

  type State = KeyedStore.Store<Schedule>

  function Key(s: Schedule): int { s.id }
  function WithId(s: Schedule, id: int): Schedule { s.(id := id) }
  function HasId(id: int): Schedule -> bool { (s: Schedule) => s.id == id }
  /** `schedule.course_id === c`. */
  function MeetingOf(c: int): Schedule -> bool { (s: Schedule) => s.courseId == c }

  /** `{ ...schedule, ...patch }`. */
  function Merge(s: Schedule, patch: SchedulePatch): Schedule {
    Schedule(patch.id.GetOr(s.id), patch.courseId.GetOr(s.courseId),
             patch.classroomId.GetOr(s.classroomId), patch.day.GetOr(s.day),
             patch.start.GetOr(s.start), patch.end.GetOr(s.end))
  }
  function MergeWith(patch: SchedulePatch): Schedule -> Schedule { (s: Schedule) => Merge(s, patch) }

  const NotFound := "Schedule not found"
  const Deleted := "Schedule deleted successfully"
  const BadFormat := "Invalid time format. Use HH:mm"
  const Overlap := "Schedule conflict detected"

  /** The four seed meetings hard-code ids 1..4 while the counter starts at 0. */
  const Seed: State := KeyedStore.Store([
    Schedule(1, 1, None, Monday, "09:00", "10:30"),
    Schedule(2, 1, None, Wednesday, "09:00", "10:30"),
    Schedule(3, 2, None, Tuesday, "14:00", "15:30"),
    Schedule(4, 3, None, Friday, "10:00", "12:00")
  ], 0)

  /** The same seed with the counter past the hard-coded ids. */
  const IntendedSeed: State := KeyedStore.Store(Seed.items, 4)

  /** Ids were all issued by the counter and no two records share one: the
      condition under which an id names exactly one meeting. */
  predicate IdsFresh(s: State) {
    KeyedStore.KeysIssued(s.items, Key, s.last) && DistinctBy(s.items, Key)
  }

  /** The overlap test of `createSchedule`, on JavaScript string order: same
      course, same day, and not (candidate ends by the other's start or starts
      from the other's end).  The classroom plays no part. */
  predicate Conflicts(other: Schedule, cand: Schedule) {
    && other.courseId == cand.courseId
    && other.day == cand.day
    && !(StrLe(cand.end, other.start) || StrGe(cand.start, other.end))
  }
  function ConflictsWith(cand: Schedule): Schedule -> bool { (other: Schedule) => Conflicts(other, cand) }

  /** POST: 400 on a malformed time (checked first), 409 on an overlap,
      otherwise the next id and an append. */
  function CreateSchedule(s: State, cand: Schedule): (r: (Result<Schedule>, State))
    ensures !IsValidTimeFormat(cand.start) || !IsValidTimeFormat(cand.end) ==> r == (Err(400, BadFormat), s)
    ensures IsValidTimeFormat(cand.start) && IsValidTimeFormat(cand.end) ==>
              (r.0.Err? <==> exists i :: 0 <= i < |s.items| && Conflicts(s.items[i], cand))
    ensures IsValidTimeFormat(cand.start) && IsValidTimeFormat(cand.end) && r.0.Err? ==>
              r == (Err(409, Overlap), s)
    ensures r.0.Ok? ==> && r.0 == Ok(201, cand.(id := s.last + 1))
                        && r.1 == KeyedStore.Store(s.items + [r.0.value], s.last + 1)
  {
    if !IsValidTimeFormat(cand.start) || !IsValidTimeFormat(cand.end) then (Err(400, BadFormat), s)
    else
      assert forall i :: 0 <= i < |s.items| ==> (ConflictsWith(cand)(s.items[i]) <==> Conflicts(s.items[i], cand));
      KeyedStore.Create(s, cand, ConflictsWith(cand), WithId, Overlap)
  }

  function GetScheduleById(s: State, id: int): (r: Result<Schedule>)
    ensures r.Ok? <==> exists i :: 0 <= i < |s.items| && s.items[i].id == id
    ensures r.Err? ==> r == Err(404, NotFound)
    ensures forall i :: IsFirst(s.items, HasId(id), i) ==> r == Ok(200, s.items[i])
  {
    KeyedStore.Find(s.items, HasId(id), NotFound)
  }

  /** PATCH: neither the time format nor overlaps are checked. */
  function UpdateSchedule(s: State, id: int, patch: SchedulePatch): (r: (Result<Schedule>, State))
    ensures r.0.Ok? <==> exists i :: 0 <= i < |s.items| && s.items[i].id == id
    ensures r.0.Err? ==> r == (Err(404, NotFound), s)
    ensures forall i :: IsFirst(s.items, HasId(id), i) ==>
              r == (Ok(200, Merge(s.items[i], patch)),
                    KeyedStore.Store(s.items[i := Merge(s.items[i], patch)], s.last))
  {
    KeyedStore.Update(s, HasId(id), MergeWith(patch), NotFound)
  }

  function DeleteSchedule(s: State, id: int): (r: (Result<string>, State))
    ensures r.0.Ok? <==> exists i :: 0 <= i < |s.items| && s.items[i].id == id
    ensures r.0.Err? ==> r == (Err(404, NotFound), s)
    ensures forall i :: IsFirst(s.items, HasId(id), i) ==>
              r == (Ok(204, Deleted), KeyedStore.Store(RemoveAt(s.items, i), s.last))
  {
    KeyedStore.Delete(s, HasId(id), NotFound, Deleted)
  }

  /** On valid times the string test is the half-open interval overlap test
      on minutes of the day. */
  lemma ConflictIsOverlap(other: Schedule, cand: Schedule)
    requires IsValidTimeFormat(other.start) && IsValidTimeFormat(other.end)
    requires IsValidTimeFormat(cand.start) && IsValidTimeFormat(cand.end)
    ensures Conflicts(other, cand) <==>
              && other.courseId == cand.courseId
              && other.day == cand.day
              && MinutesOfDay(cand.start) < MinutesOfDay(other.end)
              && MinutesOfDay(other.start) < MinutesOfDay(cand.end)
  {
    StrLeGeAreTimeOrder(cand.end, other.start);
    StrLeGeAreTimeOrder(cand.start, other.end);
  }

  /** What the overlap test ignores: meetings of another course or on another
      day never conflict, a meeting that starts where the other ends (or ends
      where it starts) never conflicts, and the classroom is irrelevant. */
  lemma ConflictScope(other: Schedule, cand: Schedule, room: Option<int>)
    ensures other.courseId != cand.courseId || other.day != cand.day ==> !Conflicts(other, cand)
    ensures cand.end == other.start || cand.start == other.end ==> !Conflicts(other, cand)
    ensures Conflicts(other, cand) <==> Conflicts(other, cand.(classroomId := room))
  {
    EqualStringsCompareBothWays(other.start);
    EqualStringsCompareBothWays(other.end);
  }

  /** The end is not required to follow the start: an inverted meeting on a
      free day is admitted. */
  lemma InvertedIntervalAdmitted()
    ensures CreateSchedule(Seed, Schedule(0, 1, None, Sunday, "10:00", "09:00")).0.Ok?
  {
    assert IsValidTimeFormat("10:00") && IsValidTimeFormat("09:00");
    forall i | 0 <= i < |Seed.items| ensures !Conflicts(Seed.items[i], Schedule(0, 1, None, Sunday, "10:00", "09:00")) {
    }
  }

  /** Moving a meeting onto an occupied slot is accepted: update never checks
      for overlaps. */
  lemma UpdateSkipsOverlapCheck()
    ensures var moved := UpdateSchedule(Seed, 2, SchedulePatch(None, None, None, Some(Monday), None, None));
            && moved.0 == Ok(200, Schedule(2, 1, None, Monday, "09:00", "10:30"))
            && Conflicts(moved.1.items[0], moved.1.items[1])
  {
    assert IsFirst(Seed.items, HasId(2), 1);
    EqualStringsCompareBothWays("09:00");
    assert StrLess("09:00", "10:30") by {
      assert "09:00"[1..] == "9:00" && "10:30"[1..] == "0:30";
    }
  }

  /** The as-written seed already breaks the counter invariant; the intended
      one satisfies it. */
  lemma SeedIdsNotFresh()
    ensures !IdsFresh(Seed) && IdsFresh(IntendedSeed)
  {
    assert Key(Seed.items[0]) > Seed.last;
  }

  lemma CreateKeepsIdsFresh(s: State, cand: Schedule)
    requires IdsFresh(s)
    ensures IdsFresh(CreateSchedule(s, cand).1)
  {
    if IsValidTimeFormat(cand.start) && IsValidTimeFormat(cand.end) {
      KeyedStore.CreateIssuesFreshKey(s, cand, ConflictsWith(cand), WithId, Overlap, Key);
      KeyedStore.CreateKeepsKeysDistinct(s, cand, ConflictsWith(cand), WithId, Overlap, Key);
    }
  }

  /** An update that leaves the id alone keeps ids fresh. */
  lemma UpdateKeepsIdsFresh(s: State, id: int, patch: SchedulePatch)
    requires IdsFresh(s) && patch.id.None?
    ensures IdsFresh(UpdateSchedule(s, id, patch).1)
  {
    KeyedStore.UpdateKeepsKeys(s, HasId(id), MergeWith(patch), NotFound, Key);
  }

  lemma DeleteKeepsIdsFresh(s: State, id: int)
    requires IdsFresh(s)
    ensures IdsFresh(DeleteSchedule(s, id).1)
  {
    KeyedStore.DeleteKeeps(s, HasId(id), NotFound, Deleted, Key, Key);
  }
}
