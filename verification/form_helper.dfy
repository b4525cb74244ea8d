/** `FormHelper` of src/ressources/courses/course-form/form-helper.ts: the two
    routines that bring a course's stored relations in line with the course
    form.  Each awaited API call is one step; the first rejected call ends the
    routine (the `catch` only logs), and nothing done before it is undone. */
module FormHelper {
  import opened ApiResult
  import opened Seqs
  import opened RelationStore
  import CoursePrograms
  import Programs
  import Classrooms
  import Schedules
  import KeyedStore
  import TimeOfDay

  // ---------------------------------------------------------------------
  // syncRelatedPrograms
  // ---------------------------------------------------------------------

  /** Some desired program carries `programId`. */
  predicate Desired(desired: seq<Programs.Program>, programId: int) {
    exists k :: 0 <= k < |desired| && desired[k].id == programId
  }

  /** Some existing relation row points at `programId`. */
  predicate Linked(existing: seq<Link>, programId: int) {
    exists k :: 0 <= k < |existing| && existing[k].otherId == programId
  }

  function Unlinked(existing: seq<Link>): Programs.Program -> bool {
    (p: Programs.Program) => !Linked(existing, p.id)
  }

  function Undesired(desired: seq<Programs.Program>): Link -> bool {
    (l: Link) => !Desired(desired, l.otherId)
  }

  /** The rows `addRelation(c, p.program_id)` appends for `ps`, in order. */
  function LinksTo(c: int, ps: seq<Programs.Program>): (r: seq<Link>)
    ensures |r| == |ps|
    ensures forall k :: 0 <= k < |ps| ==> r[k] == Link(c, ps[k].id)
  {
    if |ps| == 0 then [] else [Link(c, ps[0].id)] + LinksTo(c, ps[1..])
  }

  /** The program ids course `c` is related to. */
  function ProgramIdsOf(rels: seq<Link>, c: int): set<int> {
    set l | l in rels && l.courseId == c :: l.otherId
  }

  function DesiredIds(desired: seq<Programs.Program>): set<int> {
    set p | p in desired :: p.id
  }

  /** The add loop: `addRelation(c, p.program_id)` for each program in turn. */
  function AddRelations(rels: seq<Link>, c: int, ps: seq<Programs.Program>): (r: (Outcome, seq<Link>))
    decreases |ps|
    ensures r.0.Failed? ==> r.0 == Failed(409, CoursePrograms.Conflict)
    ensures r.0.Done? ==> r.1 == rels + LinksTo(c, ps)
  {
    if |ps| == 0 then (Done, rels)
    else
      var added := CoursePrograms.AddRelation(rels, c, ps[0].id);
      if added.0.Err? then (Failed(added.0.status, added.0.message), added.1)
      else
        var rest := AddRelations(added.1, c, ps[1..]);
        LinksToCons(rels, c, ps);
        rest
  }

  lemma LinksToCons(rels: seq<Link>, c: int, ps: seq<Programs.Program>)
    requires |ps| > 0
    ensures (rels + [Link(c, ps[0].id)]) + LinksTo(c, ps[1..]) == rels + LinksTo(c, ps)
  {
    assert LinksTo(c, ps) == [Link(c, ps[0].id)] + LinksTo(c, ps[1..]);
  }

  /** The add loop touches only course `c`, never creates a duplicate pair,
      and runs to the end when every pair is new and no program id repeats. */
  lemma {:induction false} AddRelationsFacts(rels: seq<Link>, c: int, ps: seq<Programs.Program>)
    ensures var r := AddRelations(rels, c, ps);
            && Filter(r.1, NotOfCourse(c)) == Filter(rels, NotOfCourse(c))
            && (Distinct(rels) ==> Distinct(r.1))
            && ((forall k :: 0 <= k < |ps| ==> Link(c, ps[k].id) !in rels) && DistinctBy(ps, Programs.Key) ==> r.0.Done?)
    decreases |ps|
  {
    if |ps| > 0 {
      var added := CoursePrograms.AddRelation(rels, c, ps[0].id);
      AddKeepsOtherCourses(rels, c, ps[0].id, CoursePrograms.Conflict);
      if added.0.Ok? {
        AddRelationsFacts(added.1, c, ps[1..]);
        if (forall k :: 0 <= k < |ps| ==> Link(c, ps[k].id) !in rels) && DistinctBy(ps, Programs.Key) {
          DistinctByTail(ps, Programs.Key);
          forall k | 0 <= k < |ps[1..]| ensures Link(c, ps[1..][k].id) !in added.1 {
            assert ps[1..][k] == ps[k + 1];
            assert Programs.Key(ps[1..][k]) != Programs.Key(ps[0]);
          }
        }
      }
    }
  }

  /** The remove loop: `removeRelation(rel.course_id, rel.program_id)` for each
      row in turn. */
  function RemoveRelations(rels: seq<Link>, ls: seq<Link>): (r: (Outcome, seq<Link>))
    decreases |ls|
    ensures r.0.Failed? ==> r.0 == Failed(404, CoursePrograms.NotFound)
    ensures Distinct(rels) ==> Distinct(r.1)
    ensures Distinct(rels) && r.0.Done? ==> forall x :: x in r.1 <==> x in rels && x !in ls
    ensures Distinct(rels) && Distinct(ls) && (forall k :: 0 <= k < |ls| ==> ls[k] in rels) ==> r.0.Done?
  {
    if |ls| == 0 then (Done, rels)
    else
      var removed := CoursePrograms.RemoveRelation(rels, ls[0].courseId, ls[0].otherId);
      if removed.0.Err? then (Failed(removed.0.status, removed.0.message), removed.1)
      else
        var rest := RemoveRelations(removed.1, ls[1..]);
        assert Distinct(rels) ==> Distinct(removed.1) && forall x :: x in removed.1 <==> x in rels && x != ls[0] by {
          if Distinct(rels) {
            RemoveUnderDistinct(rels, ls[0].courseId, ls[0].otherId, CoursePrograms.NotFound, CoursePrograms.Removed);
          }
        }
        assert forall x :: x in ls <==> x == ls[0] || x in ls[1..] by {
          assert ls == [ls[0]] + ls[1..];
        }
        assert Distinct(ls) ==> Distinct(ls[1..]) && ls[0] !in ls[1..] by {
          if Distinct(ls) {
            forall i, j | 0 <= i < j < |ls[1..]| ensures ls[1..][i] != ls[1..][j] {
              assert ls[1..][i] == ls[i + 1] && ls[1..][j] == ls[j + 1];
            }
            forall k | 0 <= k < |ls[1..]| ensures ls[1..][k] != ls[0] { assert ls[1..][k] == ls[k + 1]; }
          }
        }
        rest
  }

  /** Removing rows of course `c` only leaves every other course's rows as
      they were. */
  lemma {:induction false} RemoveRelationsKeepOthers(rels: seq<Link>, ls: seq<Link>, c: int)
    requires forall k :: 0 <= k < |ls| ==> ls[k].courseId == c
    ensures Filter(RemoveRelations(rels, ls).1, NotOfCourse(c)) == Filter(rels, NotOfCourse(c))
    decreases |ls|
  {
    if |ls| > 0 {
      var removed := CoursePrograms.RemoveRelation(rels, ls[0].courseId, ls[0].otherId);
      RemoveKeepsOtherCourses(rels, c, ls[0].otherId, CoursePrograms.NotFound, CoursePrograms.Removed);
      if removed.0.Ok? {
        assert forall k :: 0 <= k < |ls[1..]| ==> ls[1..][k] == ls[k + 1];
        RemoveRelationsKeepOthers(removed.1, ls[1..], c);
      }
    }
  }

  /** `syncRelatedPrograms(c, desired)`: add the desired programs that have no
      row yet, then remove the rows whose program is no longer desired. */
  function SyncRelatedPrograms(rels: seq<Link>, c: int, desired: seq<Programs.Program>): (r: (Outcome, seq<Link>))
    ensures r.0.Failed? ==> r.0 == Failed(409, CoursePrograms.Conflict) || r.0 == Failed(404, CoursePrograms.NotFound)
    ensures Filter(r.1, NotOfCourse(c)) == Filter(rels, NotOfCourse(c))
    ensures Distinct(rels) ==> Distinct(r.1)
    ensures Distinct(rels) && DistinctBy(desired, Programs.Key) ==> r.0.Done?
  {
    var existing := CoursePrograms.GetRelsByCourseID(rels, c).value;
    var toAdd := Filter(desired, Unlinked(existing));
    var added := AddRelations(rels, c, toAdd);
    AddRelationsFacts(rels, c, toAdd);
    assert Distinct(rels) && DistinctBy(desired, Programs.Key) ==> added.0.Done? by {
      if Distinct(rels) && DistinctBy(desired, Programs.Key) {
        FilterDistinctBy(desired, Unlinked(existing), Programs.Key);
        forall k | 0 <= k < |toAdd| ensures Link(c, toAdd[k].id) !in rels {
          ProgramDiff(rels, c, desired, toAdd[k], Link(c, toAdd[k].id));
        }
      }
    }
    if added.0.Failed? then added
    else
      var toRemove := Filter(existing, Undesired(desired));
      RemoveRelationsKeepOthers(added.1, toRemove, c);
      assert Distinct(rels) ==> RemoveRelations(added.1, toRemove).0.Done? by {
        if Distinct(rels) {
          FilterDistinct(rels, OfCourse(c));
          FilterDistinct(existing, Undesired(desired));
          forall k | 0 <= k < |toRemove| ensures toRemove[k] in added.1 {
            assert toRemove[k] in existing;
          }
        }
      }
      RemoveRelations(added.1, toRemove)
  }

  /** `toAdd` and `toRemove` as sets: a desired program is added exactly when
      the course has no row for it, and a row of the course is removed exactly
      when its program is not desired. */
  lemma ProgramDiff(rels: seq<Link>, c: int, desired: seq<Programs.Program>, p: Programs.Program, l: Link)
    ensures var existing := CoursePrograms.GetRelsByCourseID(rels, c).value;
            && (p in Filter(desired, Unlinked(existing)) <==> p in desired && Link(c, p.id) !in rels)
            && (l in Filter(existing, Undesired(desired)) <==>
                  l in rels && l.courseId == c && !Desired(desired, l.otherId))
  {
    var existing := CoursePrograms.GetRelsByCourseID(rels, c).value;
    FilterHas(desired, Unlinked(existing), p);
    FilterHas(existing, Undesired(desired), l);
    FilterHas(rels, OfCourse(c), Link(c, p.id));
    FilterHas(rels, OfCourse(c), l);
    if Linked(existing, p.id) {
      var k :| 0 <= k < |existing| && existing[k].otherId == p.id;
      assert existing[k] == Link(c, p.id);
    }
    if Link(c, p.id) in rels {
      var k :| 0 <= k < |existing| && existing[k] == Link(c, p.id);
    }
  }

  /** A sync that ran to the end keeps a row exactly when it was stored or
      added, and not removed. */
  lemma SyncedProgramRows(rels: seq<Link>, c: int, desired: seq<Programs.Program>, l: Link)
    requires Distinct(rels)
    requires SyncRelatedPrograms(rels, c, desired).0.Done?
    ensures var existing := CoursePrograms.GetRelsByCourseID(rels, c).value;
            l in SyncRelatedPrograms(rels, c, desired).1 <==>
              && (l in rels || l in LinksTo(c, Filter(desired, Unlinked(existing))))
              && l !in Filter(existing, Undesired(desired))
  {
    var existing := CoursePrograms.GetRelsByCourseID(rels, c).value;
    var toAdd := Filter(desired, Unlinked(existing));
    var added := AddRelations(rels, c, toAdd);
    var toRemove := Filter(existing, Undesired(desired));
    assert added.0.Done? && SyncRelatedPrograms(rels, c, desired) == RemoveRelations(added.1, toRemove);
    AddRelationsFacts(rels, c, toAdd);
    assert l in added.1 <==> l in rels || l in LinksTo(c, toAdd);
  }

  /** One program id: after the add loop and the remove loop, course `c` has
      a row for `pid` exactly when `pid` is desired. */
  lemma SyncedProgramId(rels: seq<Link>, c: int, desired: seq<Programs.Program>, pid: int)
    requires Distinct(rels)
    requires SyncRelatedPrograms(rels, c, desired).0.Done?
    ensures Link(c, pid) in SyncRelatedPrograms(rels, c, desired).1 <==> pid in DesiredIds(desired)
  {
    SyncedProgramRows(rels, c, desired, Link(c, pid));
    ProgramDiff(rels, c, desired, Programs.Program(pid, "", ""), Link(c, pid));
    if pid in DesiredIds(desired) {
      DesiredIdLinked(rels, c, desired, pid);
    }
    if Link(c, pid) in SyncRelatedPrograms(rels, c, desired).1 {
      LinkedIdDesired(rels, c, desired, pid);
    }
  }

  /** A desired id the course had no row for is among the added rows. */
  lemma DesiredIdLinked(rels: seq<Link>, c: int, desired: seq<Programs.Program>, pid: int)
    requires pid in DesiredIds(desired)
    ensures var toAdd := Filter(desired, Unlinked(CoursePrograms.GetRelsByCourseID(rels, c).value));
            Link(c, pid) in rels || Link(c, pid) in LinksTo(c, toAdd)
  {
    var toAdd := Filter(desired, Unlinked(CoursePrograms.GetRelsByCourseID(rels, c).value));
    if Link(c, pid) !in rels {
      var p :| p in desired && p.id == pid;
      ProgramDiff(rels, c, desired, p, Link(c, pid));
      var k :| 0 <= k < |toAdd| && toAdd[k] == p;
      assert LinksTo(c, toAdd)[k] == Link(c, pid);
    }
  }

  /** A row that survives the sync names a desired id. */
  lemma LinkedIdDesired(rels: seq<Link>, c: int, desired: seq<Programs.Program>, pid: int)
    requires Distinct(rels)
    requires SyncRelatedPrograms(rels, c, desired).0.Done?
    requires Link(c, pid) in SyncRelatedPrograms(rels, c, desired).1
    ensures pid in DesiredIds(desired)
  {
    var toAdd := Filter(desired, Unlinked(CoursePrograms.GetRelsByCourseID(rels, c).value));
    SyncedProgramRows(rels, c, desired, Link(c, pid));
    ProgramDiff(rels, c, desired, Programs.Program(pid, "", ""), Link(c, pid));
    if Link(c, pid) in LinksTo(c, toAdd) {
      var k :| 0 <= k < |toAdd| && LinksTo(c, toAdd)[k] == Link(c, pid);
      assert toAdd[k] in desired;
    }
  }

  /** After a sync that ran to the end on a store without duplicate pairs, the
      course is related to exactly the desired program ids. */
  lemma SyncedProgramsMatchDesired(rels: seq<Link>, c: int, desired: seq<Programs.Program>)
    requires Distinct(rels)
    ensures var r := SyncRelatedPrograms(rels, c, desired);
            r.0.Done? ==> ProgramIdsOf(r.1, c) == DesiredIds(desired)
  {
    var r := SyncRelatedPrograms(rels, c, desired);
    if r.0.Done? {
      forall pid ensures pid in ProgramIdsOf(r.1, c) <==> pid in DesiredIds(desired) {
        SyncedProgramId(rels, c, desired, pid);
        assert pid in ProgramIdsOf(r.1, c) <==> Link(c, pid) in r.1;
      }
    }
  }

  /** A second sync with the same list finds nothing to add and nothing to
      remove, and leaves the store as it is. */
  lemma SyncProgramsIdempotent(rels: seq<Link>, c: int, desired: seq<Programs.Program>)
    requires Distinct(rels)
    requires SyncRelatedPrograms(rels, c, desired).0.Done?
    ensures var once := SyncRelatedPrograms(rels, c, desired).1;
            var existing := CoursePrograms.GetRelsByCourseID(once, c).value;
            && Filter(desired, Unlinked(existing)) == []
            && Filter(existing, Undesired(desired)) == []
            && SyncRelatedPrograms(once, c, desired) == (Done, once)
  {
    var once := SyncRelatedPrograms(rels, c, desired).1;
    SyncedProgramsMatchDesired(rels, c, desired);
    var existing := CoursePrograms.GetRelsByCourseID(once, c).value;
    forall k | 0 <= k < |desired| ensures !Unlinked(existing)(desired[k]) {
      var pid := desired[k].id;
      assert pid in DesiredIds(desired);
      var l :| l in once && l.courseId == c && l.otherId == pid;
      var j :| 0 <= j < |once| && once[j] == l;
      assert l in existing;
    }
    FilterNone(desired, Unlinked(existing));
    forall k | 0 <= k < |existing| ensures !Undesired(desired)(existing[k]) {
      assert existing[k].otherId in ProgramIdsOf(once, c);
      var p :| p in desired && p.id == existing[k].otherId;
    }
    FilterNone(existing, Undesired(desired));
  }

  // ---------------------------------------------------------------------
  // syncRelatedSchedules
  // ---------------------------------------------------------------------

  /** One entry of the form's schedule list: the id of the stored meeting it
      edits, if any, and the classroom record picked for it. */
  datatype RelatedSchedule = RelatedSchedule(id: Option<int>, classroom: Classrooms.Classroom,
                                             day: Schedules.Day, start: string, end: string)

  function EntryId(d: RelatedSchedule): Option<int> { d.id }

  /** The meeting an entry describes, for course `c`, stored under `id`. */
  function Meeting(id: int, c: int, d: RelatedSchedule): Schedules.Schedule {
    Schedules.Schedule(id, c, Some(d.classroom.id), d.day, d.start, d.end)
  }

  /** The patch `updateSchedule` receives: every field except the id. */
  function PatchFor(c: int, d: RelatedSchedule): Schedules.SchedulePatch {
    Schedules.SchedulePatch(None, Some(c), Some(Some(d.classroom.id)), Some(d.day), Some(d.start), Some(d.end))
  }

  /** Some entry edits the meeting with this id. */
  predicate Wanted(ds: seq<RelatedSchedule>, id: int) {
    exists k :: 0 <= k < |ds| && ds[k].id == Some(id)
  }

  /** Some existing meeting has this id. */
  predicate Known(existing: seq<Schedules.Schedule>, id: Option<int>) {
    exists k :: 0 <= k < |existing| && Some(existing[k].id) == id
  }

  /** No id is claimed by two entries (entries without an id are not compared). */
  predicate NoRepeatedIds(ds: seq<RelatedSchedule>) {
    forall i, j :: 0 <= i < j < |ds| && ds[i].id.Some? ==> ds[i].id != ds[j].id
  }

  function NotMeetingOf(c: int): Schedules.Schedule -> bool { (s: Schedules.Schedule) => s.courseId != c }
  function Unwanted(ds: seq<RelatedSchedule>): Schedules.Schedule -> bool {
    (s: Schedules.Schedule) => !Wanted(ds, s.id)
  }
  function IsNew(existing: seq<Schedules.Schedule>): RelatedSchedule -> bool {
    (d: RelatedSchedule) => !Known(existing, d.id)
  }
  function IsKnown(existing: seq<Schedules.Schedule>): RelatedSchedule -> bool {
    (d: RelatedSchedule) => Known(existing, d.id)
  }

  /** `existingSchedules`, `toRemove`, `toAdd` and `toUpdate`, all computed
      from the store as it was before the first call. */
  function CourseMeetings(st: Schedules.State, c: int): seq<Schedules.Schedule> {
    Filter(st.items, Schedules.MeetingOf(c))
  }
  function ToRemove(st: Schedules.State, c: int, desired: seq<RelatedSchedule>): seq<Schedules.Schedule> {
    Filter(CourseMeetings(st, c), Unwanted(desired))
  }
  function ToAdd(st: Schedules.State, c: int, desired: seq<RelatedSchedule>): seq<RelatedSchedule> {
    Filter(desired, IsNew(CourseMeetings(st, c)))
  }
  function ToUpdate(st: Schedules.State, c: int, desired: seq<RelatedSchedule>): seq<RelatedSchedule> {
    Filter(desired, IsKnown(CourseMeetings(st, c)))
  }

  /** The delete loop: `deleteSchedule(schedule.schedule_id)` for each meeting
      in turn. */
  function DeleteEach(st: Schedules.State, ss: seq<Schedules.Schedule>): (r: (Outcome, Schedules.State))
    decreases |ss|
    ensures r.0.Failed? ==> r.0 == Failed(404, Schedules.NotFound)
    ensures r.1.last == st.last
    ensures |r.1.items| <= |st.items|
  {
    if |ss| == 0 then (Done, st)
    else
      var deleted := Schedules.DeleteSchedule(st, ss[0].id);
      if deleted.0.Err? then (Failed(deleted.0.status, deleted.0.message), deleted.1)
      else DeleteEach(deleted.1, ss[1..])
  }

  /** Deleting a stored meeting by its id, when ids name single meetings,
      removes exactly that meeting. */
  lemma DeleteOne(st: Schedules.State, x: Schedules.Schedule, c: int)
    requires DistinctBy(st.items, Schedules.Key) && x in st.items
    ensures var deleted := Schedules.DeleteSchedule(st, x.id);
            && deleted.0.Ok?
            && DistinctBy(deleted.1.items, Schedules.Key)
            && (forall y :: y in deleted.1.items <==> y in st.items && y != x)
            && (x.courseId == c ==> Filter(deleted.1.items, NotMeetingOf(c)) == Filter(st.items, NotMeetingOf(c)))
  {
    var items := st.items;
    var j :| 0 <= j < |items| && items[j] == x;
    assert IsFirst(items, Schedules.HasId(x.id), j) by {
      forall i | 0 <= i < j ensures !Schedules.HasId(x.id)(items[i]) {
        assert Schedules.Key(items[i]) != Schedules.Key(items[j]);
      }
    }
    assert Schedules.DeleteSchedule(st, x.id).1.items == RemoveAt(items, j);
    assert Distinct(items) by {
      forall a, b | 0 <= a < b < |items| ensures items[a] != items[b] {
        assert Schedules.Key(items[a]) != Schedules.Key(items[b]);
      }
    }
    RemoveAtDistinct(items, j);
    KeyedStore.RemoveAtKeeps(items, j, Schedules.Key, st.last, Schedules.Key);
    if x.courseId == c {
      FilterRemoveAt(items, j, NotMeetingOf(c));
    }
  }

  /** When ids name single meetings and every meeting to delete is stored and
      belongs to course `c`, the loop deletes exactly those meetings. */
  lemma {:induction false} DeleteEachFacts(st: Schedules.State, ss: seq<Schedules.Schedule>, c: int)
    requires DistinctBy(st.items, Schedules.Key) && DistinctBy(ss, Schedules.Key)
    requires forall k :: 0 <= k < |ss| ==> ss[k] in st.items && ss[k].courseId == c
    ensures var r := DeleteEach(st, ss);
            && r.0.Done?
            && DistinctBy(r.1.items, Schedules.Key)
            && (forall x :: x in r.1.items <==> x in st.items && x !in ss)
            && Filter(r.1.items, NotMeetingOf(c)) == Filter(st.items, NotMeetingOf(c))
    decreases |ss|
  {
    if |ss| > 0 {
      DeleteOne(st, ss[0], c);
      var deleted := Schedules.DeleteSchedule(st, ss[0].id);
      var rest := ss[1..];
      DistinctByTail(ss, Schedules.Key);
      forall k | 0 <= k < |rest| ensures rest[k] in deleted.1.items && rest[k].courseId == c {
        assert rest[k] == ss[k + 1];
        assert Schedules.Key(rest[k]) != Schedules.Key(ss[0]);
      }
      DeleteEachFacts(deleted.1, rest, c);
      assert forall x :: x in ss <==> x == ss[0] || x in rest by {
        assert ss == [ss[0]] + rest;
      }
    }
  }

  /** The create loop: `createSchedule` for each new entry in turn, with
      `course_id` forced to `c` and `classroom_id` taken from the entry's
      classroom.  Every record created carries a fresh counter value. */
  function CreateEach(st: Schedules.State, c: int, ds: seq<RelatedSchedule>): (r: (Outcome, Schedules.State))
    decreases |ds|
    ensures r.0.Failed? ==> r.0 == Failed(400, Schedules.BadFormat) || r.0 == Failed(409, Schedules.Overlap)
    ensures st.last <= r.1.last
    ensures |st.items| <= |r.1.items| && r.1.items[..|st.items|] == st.items
    ensures forall k :: |st.items| <= k < |r.1.items| ==> r.1.items[k].courseId == c && st.last < r.1.items[k].id
    ensures r.0.Done? ==> && |r.1.items| == |st.items| + |ds|
                          && forall k :: 0 <= k < |ds| ==> r.1.items[|st.items| + k] == Meeting(st.last + 1 + k, c, ds[k])
  {
    if |ds| == 0 then (Done, st)
    else
      var created := Schedules.CreateSchedule(st, Meeting(0, c, ds[0]));
      if created.0.Err? then (Failed(created.0.status, created.0.message), created.1)
      else
        var rest := CreateEach(created.1, c, ds[1..]);
        CreateEachStep(st, c, ds, created.1, rest);
        rest
  }

  /** The step of the create loop: what the rest of the loop did after the
      first create, seen from the store before it. */
  lemma CreateEachStep(st: Schedules.State, c: int, ds: seq<RelatedSchedule>, mid: Schedules.State,
                       rest: (Outcome, Schedules.State))
    requires |ds| > 0 && mid == KeyedStore.Store(st.items + [Meeting(st.last + 1, c, ds[0])], st.last + 1)
    requires |mid.items| <= |rest.1.items| && rest.1.items[..|mid.items|] == mid.items
    requires forall k :: |mid.items| <= k < |rest.1.items| ==> rest.1.items[k].courseId == c && mid.last < rest.1.items[k].id
    requires rest.0.Done? ==> && |rest.1.items| == |mid.items| + |ds| - 1
                              && forall k :: 0 <= k < |ds| - 1 ==>
                                   rest.1.items[|mid.items| + k] == Meeting(mid.last + 1 + k, c, ds[1..][k])
    ensures |st.items| <= |rest.1.items| && rest.1.items[..|st.items|] == st.items
    ensures forall k :: |st.items| <= k < |rest.1.items| ==> rest.1.items[k].courseId == c && st.last < rest.1.items[k].id
    ensures rest.0.Done? ==> && |rest.1.items| == |st.items| + |ds|
                             && forall k :: 0 <= k < |ds| ==> rest.1.items[|st.items| + k] == Meeting(st.last + 1 + k, c, ds[k])
  {
    var n := |st.items|;
    assert rest.1.items[..n] == rest.1.items[..n + 1][..n];
    assert rest.1.items[n] == rest.1.items[..n + 1][n];
    if rest.0.Done? {
      forall k | 1 <= k < |ds| ensures rest.1.items[n + k] == Meeting(st.last + 1 + k, c, ds[k]) {
        assert ds[1..][k - 1] == ds[k];
        assert rest.1.items[(n + 1) + (k - 1)] == Meeting(st.last + 1 + 1 + (k - 1), c, ds[1..][k - 1]);
      }
    }
  }

  /** The create loop leaves other courses' meetings as they were and keeps
      ids naming single meetings. */
  lemma {:induction false} CreateEachFacts(st: Schedules.State, c: int, ds: seq<RelatedSchedule>)
    ensures var r := CreateEach(st, c, ds);
            && Filter(r.1.items, NotMeetingOf(c)) == Filter(st.items, NotMeetingOf(c))
            && (Schedules.IdsFresh(st) ==> Schedules.IdsFresh(r.1))
    decreases |ds|
  {
    if |ds| > 0 {
      var created := Schedules.CreateSchedule(st, Meeting(0, c, ds[0]));
      if created.0.Ok? {
        FilterSnoc(st.items, created.0.value, NotMeetingOf(c));
        if Schedules.IdsFresh(st) {
          Schedules.CreateKeepsIdsFresh(st, Meeting(0, c, ds[0]));
        }
        CreateEachFacts(created.1, c, ds[1..]);
      }
    }
  }

  /** The update loop: `updateSchedule(schedule.schedule_id!, patch)` for each
      known entry in turn, with no overlap check.  An entry without an id
      names no stored meeting, so its update is rejected with 404. */
  function UpdateEach(st: Schedules.State, c: int, ds: seq<RelatedSchedule>): (r: (Outcome, Schedules.State))
    decreases |ds|
    ensures r.0.Failed? ==> r.0 == Failed(404, Schedules.NotFound)
    ensures r.1.last == st.last && |r.1.items| == |st.items|
    ensures forall j :: 0 <= j < |st.items| ==> r.1.items[j].id == st.items[j].id
    ensures forall j :: 0 <= j < |st.items| && !Wanted(ds, st.items[j].id) ==> r.1.items[j] == st.items[j]
  {
    if |ds| == 0 then (Done, st)
    else
      match ds[0].id
      case None => (Failed(404, Schedules.NotFound), st)
      case Some(id) =>
        var updated := Schedules.UpdateSchedule(st, id, PatchFor(c, ds[0]));
        if updated.0.Err? then (Failed(updated.0.status, updated.0.message), updated.1)
        else
          var i := FindIndex(st.items, Schedules.HasId(id)).value;
          assert updated.1.items == st.items[i := Schedules.Merge(st.items[i], PatchFor(c, ds[0]))];
          assert forall j :: 0 <= j < |st.items| && !Wanted(ds, st.items[j].id) ==> !Wanted(ds[1..], st.items[j].id) by {
            forall j | 0 <= j < |st.items| && Wanted(ds[1..], st.items[j].id) ensures Wanted(ds, st.items[j].id) {
              var k :| 0 <= k < |ds[1..]| && ds[1..][k].id == Some(st.items[j].id);
              assert ds[k + 1] == ds[1..][k];
            }
          }
          UpdateEach(updated.1, c, ds[1..])
  }

  /** Every entry names a stored meeting of course `c`. */
  predicate OwnedBy(items: seq<Schedules.Schedule>, c: int, ds: seq<RelatedSchedule>) {
    forall k :: 0 <= k < |ds| ==>
      ds[k].id.Some? && exists j :: 0 <= j < |items| && items[j].id == ds[k].id.value && items[j].courseId == c
  }

  /** Updating the meeting an entry names, when that meeting belongs to
      course `c` and ids name single meetings, replaces exactly that meeting by
      the one the entry describes. */
  lemma UpdateOne(st: Schedules.State, c: int, d: RelatedSchedule)
    requires DistinctBy(st.items, Schedules.Key) && d.id.Some?
    requires exists j :: 0 <= j < |st.items| && st.items[j].id == d.id.value && st.items[j].courseId == c
    ensures var updated := Schedules.UpdateSchedule(st, d.id.value, PatchFor(c, d));
            var next := updated.1.items;
            && updated.0.Ok?
            && |next| == |st.items|
            && (forall i :: 0 <= i < |next| ==>
                  next[i] == if st.items[i].id == d.id.value then Meeting(d.id.value, c, d) else st.items[i])
            && DistinctBy(next, Schedules.Key)
            && Filter(next, NotMeetingOf(c)) == Filter(st.items, NotMeetingOf(c))
  {
    var items := st.items;
    var id := d.id.value;
    var j :| 0 <= j < |items| && items[j].id == id && items[j].courseId == c;
    var m := Meeting(id, c, d);
    UpdateAt(st, c, d, j);
    var next := items[j := m];
    forall i | 0 <= i < |next| ensures next[i] == if items[i].id == id then m else items[i] {
      if i != j {
        assert Schedules.Key(items[i]) != Schedules.Key(items[j]);
      }
    }
    FilterUpdate(items, j, m, NotMeetingOf(c));
    ReplaceKeepsKeysDistinct(items, j, m);
  }

  /** The update of the meeting at `j` with the entry's patch writes the
      entry's meeting at `j`. */
  lemma UpdateAt(st: Schedules.State, c: int, d: RelatedSchedule, j: int)
    requires DistinctBy(st.items, Schedules.Key) && d.id.Some?
    requires 0 <= j < |st.items| && st.items[j].id == d.id.value && st.items[j].courseId == c
    ensures var updated := Schedules.UpdateSchedule(st, d.id.value, PatchFor(c, d));
            updated.0.Ok? && updated.1.items == st.items[j := Meeting(d.id.value, c, d)]
  {
    var items := st.items;
    var id := d.id.value;
    assert IsFirst(items, Schedules.HasId(id), j) by {
      forall i | 0 <= i < j ensures !Schedules.HasId(id)(items[i]) {
        assert Schedules.Key(items[i]) != Schedules.Key(items[j]);
      }
    }
    assert Schedules.Merge(items[j], PatchFor(c, d)) == Meeting(id, c, d);
  }

  /** Replacing a meeting by one with the same id keeps ids distinct. */
  lemma ReplaceKeepsKeysDistinct(items: seq<Schedules.Schedule>, j: int, m: Schedules.Schedule)
    requires DistinctBy(items, Schedules.Key) && 0 <= j < |items| && m.id == items[j].id
    ensures DistinctBy(items[j := m], Schedules.Key)
  {
    var next := items[j := m];
    forall a, b | 0 <= a < b < |next| ensures Schedules.Key(next[a]) != Schedules.Key(next[b]) {
      assert Schedules.Key(items[a]) != Schedules.Key(items[b]);
    }
  }

  /** After the first entry's update, the remaining entries still name
      stored meetings of course `c`. */
  lemma OwnedAfterUpdate(st: Schedules.State, c: int, ds: seq<RelatedSchedule>)
    requires |ds| > 0 && DistinctBy(st.items, Schedules.Key) && OwnedBy(st.items, c, ds)
    ensures var updated := Schedules.UpdateSchedule(st, ds[0].id.value, PatchFor(c, ds[0]));
            && updated.0.Ok?
            && DistinctBy(updated.1.items, Schedules.Key)
            && OwnedBy(updated.1.items, c, ds[1..])
            && Filter(updated.1.items, NotMeetingOf(c)) == Filter(st.items, NotMeetingOf(c))
  {
    var items := st.items;
    UpdateOne(st, c, ds[0]);
    var next := Schedules.UpdateSchedule(st, ds[0].id.value, PatchFor(c, ds[0])).1.items;
    var rest := ds[1..];
    forall k | 0 <= k < |rest|
      ensures rest[k].id.Some? && exists q :: 0 <= q < |next| && next[q].id == rest[k].id.value && next[q].courseId == c
    {
      assert rest[k] == ds[k + 1];
      var q :| 0 <= q < |items| && items[q].id == ds[k + 1].id.value && items[q].courseId == c;
      assert next[q].id == items[q].id && next[q].courseId == c;
    }
  }

  /** When every entry names a stored meeting of course `c` and ids name single
      meetings, the update loop runs to the end and touches course `c` only. */
  lemma {:induction false} UpdateEachRuns(st: Schedules.State, c: int, ds: seq<RelatedSchedule>)
    requires DistinctBy(st.items, Schedules.Key) && OwnedBy(st.items, c, ds)
    ensures var r := UpdateEach(st, c, ds);
            && r.0.Done?
            && Filter(r.1.items, NotMeetingOf(c)) == Filter(st.items, NotMeetingOf(c))
    decreases |ds|
  {
    if |ds| > 0 {
      OwnedAfterUpdate(st, c, ds);
      UpdateEachRuns(Schedules.UpdateSchedule(st, ds[0].id.value, PatchFor(c, ds[0])).1, c, ds[1..]);
    }
  }

  /** Every entry names its meeting, and `items` holds that meeting as the
      entry describes it for course `c`. */
  predicate StoresEntries(items: seq<Schedules.Schedule>, c: int, ds: seq<RelatedSchedule>) {
    forall k :: 0 <= k < |ds| ==> ds[k].id.Some? && Meeting(ds[k].id.value, c, ds[k]) in items
  }

  lemma StoresEntriesCons(items: seq<Schedules.Schedule>, c: int, ds: seq<RelatedSchedule>)
    requires |ds| > 0 && ds[0].id.Some? && Meeting(ds[0].id.value, c, ds[0]) in items
    requires StoresEntries(items, c, ds[1..])
    ensures StoresEntries(items, c, ds)
  {
    forall k | 0 <= k < |ds| ensures ds[k].id.Some? && Meeting(ds[k].id.value, c, ds[k]) in items {
      if k > 0 {
        assert ds[1..][k - 1] == ds[k];
      }
    }
  }

  /** Without repeated ids, the tail has none either and does not claim the
      head's id. */
  lemma DistinctTail(ds: seq<RelatedSchedule>)
    requires |ds| > 0 && ds[0].id.Some? && DistinctBy(ds, EntryId)
    ensures DistinctBy(ds[1..], EntryId) && !Wanted(ds[1..], ds[0].id.value)
  {
    var rest := ds[1..];
    forall a, b | 0 <= a < b < |rest| ensures EntryId(rest[a]) != EntryId(rest[b]) {
      assert rest[a] == ds[a + 1] && rest[b] == ds[b + 1];
    }
    forall k | 0 <= k < |rest| ensures rest[k].id != ds[0].id {
      assert rest[k] == ds[k + 1];
      assert EntryId(ds[0]) != EntryId(ds[k + 1]);
    }
  }

  /** Under the same conditions, and when no id repeats, every entry's meeting
      ends up stored exactly as the entry describes it. */
  lemma {:induction false} UpdateEachStores(st: Schedules.State, c: int, ds: seq<RelatedSchedule>)
    requires DistinctBy(st.items, Schedules.Key) && OwnedBy(st.items, c, ds) && DistinctBy(ds, EntryId)
    ensures StoresEntries(UpdateEach(st, c, ds).1.items, c, ds)
    decreases |ds|
  {
    if |ds| > 0 {
      var id := ds[0].id.value;
      OwnedAfterUpdate(st, c, ds);
      UpdateOne(st, c, ds[0]);
      DistinctTail(ds);
      var updated := Schedules.UpdateSchedule(st, id, PatchFor(c, ds[0]));
      UpdateEachStores(updated.1, c, ds[1..]);
      var j :| 0 <= j < |st.items| && st.items[j].id == id && st.items[j].courseId == c;
      assert updated.1.items[j] == Meeting(id, c, ds[0]);
      UnclaimedStays(updated.1, c, ds[1..], j);
      assert UpdateEach(st, c, ds) == UpdateEach(updated.1, c, ds[1..]);
      StoresEntriesCons(UpdateEach(st, c, ds).1.items, c, ds);
    }
  }

  /** `syncRelatedSchedules(c, desired)`: delete the course's meetings whose id
      no entry claims, create a meeting for every entry whose id is not among
      the course's meetings, then update the meetings the other entries name. */
  function SyncRelatedSchedules(st: Schedules.State, c: int, desired: seq<RelatedSchedule>): (r: (Outcome, Schedules.State))
    ensures r.0.Failed? ==> r.0 == Failed(404, Schedules.NotFound) || r.0 == Failed(400, Schedules.BadFormat)
                            || r.0 == Failed(409, Schedules.Overlap)
    ensures st.last <= r.1.last
  {
    var removed := DeleteEach(st, ToRemove(st, c, desired));
    if removed.0.Failed? then removed
    else
      var created := CreateEach(removed.1, c, ToAdd(st, c, desired));
      if created.0.Failed? then created
      else UpdateEach(created.1, c, ToUpdate(st, c, desired))
  }

  /** The delete phase, while ids name single meetings, runs to the end and
      deletes exactly the course's meetings whose id no entry claims. */
  lemma SyncRemovesExactlyObsolete(st: Schedules.State, c: int, desired: seq<RelatedSchedule>)
    requires Schedules.IdsFresh(st)
    ensures var removed := DeleteEach(st, ToRemove(st, c, desired));
            && removed.0.Done?
            && Schedules.IdsFresh(removed.1)
            && (forall x :: x in removed.1.items <==> x in st.items && (x.courseId == c ==> Wanted(desired, x.id)))
            && Filter(removed.1.items, NotMeetingOf(c)) == Filter(st.items, NotMeetingOf(c))
  {
    var existing := CourseMeetings(st, c);
    var toRemove := ToRemove(st, c, desired);
    FilterDistinctBy(st.items, Schedules.MeetingOf(c), Schedules.Key);
    FilterDistinctBy(existing, Unwanted(desired), Schedules.Key);
    forall x ensures x in toRemove <==> x in st.items && x.courseId == c && !Wanted(desired, x.id) {
      FilterHas(st.items, Schedules.MeetingOf(c), x);
      FilterHas(existing, Unwanted(desired), x);
    }
    forall k | 0 <= k < |toRemove| ensures toRemove[k] in st.items && toRemove[k].courseId == c {
      assert toRemove[k] in toRemove;
    }
    DeleteEachFacts(st, toRemove, c);
    var removed := DeleteEach(st, toRemove);
    forall i | 0 <= i < |removed.1.items| ensures Schedules.Key(removed.1.items[i]) <= removed.1.last {
      assert removed.1.items[i] in st.items;
    }
  }

  /** Which entries are created and which are updated: an entry is new exactly
      when its id (if any) is not the id of one of the course's meetings. */
  lemma ScheduleDiff(st: Schedules.State, c: int, desired: seq<RelatedSchedule>, d: RelatedSchedule)
    ensures d in ToAdd(st, c, desired) <==>
              d in desired && !(d.id.Some? && exists j :: 0 <= j < |st.items| && st.items[j].id == d.id.value && st.items[j].courseId == c)
    ensures d in ToUpdate(st, c, desired) <==>
              d in desired && d.id.Some? && exists j :: 0 <= j < |st.items| && st.items[j].id == d.id.value && st.items[j].courseId == c
  {
    var existing := CourseMeetings(st, c);
    FilterHas(desired, IsNew(existing), d);
    FilterHas(desired, IsKnown(existing), d);
    KnownMeansOwned(st, c, d.id);
  }

  /** An id is among the course's meetings exactly when a stored meeting of
      the course carries it. */
  lemma KnownMeansOwned(st: Schedules.State, c: int, id: Option<int>)
    ensures Known(CourseMeetings(st, c), id) <==>
              id.Some? && exists j :: 0 <= j < |st.items| && st.items[j].id == id.value && st.items[j].courseId == c
  {
    if Known(CourseMeetings(st, c), id) {
      KnownIsOwned(st, c, id);
    }
    if id.Some? && exists j :: 0 <= j < |st.items| && st.items[j].id == id.value && st.items[j].courseId == c {
      var j :| 0 <= j < |st.items| && st.items[j].id == id.value && st.items[j].courseId == c;
      OwnedIsKnown(st, c, j);
    }
  }

  lemma KnownIsOwned(st: Schedules.State, c: int, id: Option<int>)
    requires Known(CourseMeetings(st, c), id)
    ensures id.Some? && exists j :: 0 <= j < |st.items| && st.items[j].id == id.value && st.items[j].courseId == c
  {
    var existing := CourseMeetings(st, c);
    var k :| 0 <= k < |existing| && Some(existing[k].id) == id;
    FilterHas(st.items, Schedules.MeetingOf(c), existing[k]);
    var j :| 0 <= j < |st.items| && st.items[j] == existing[k];
  }

  lemma OwnedIsKnown(st: Schedules.State, c: int, j: int)
    requires 0 <= j < |st.items| && st.items[j].courseId == c
    ensures Known(CourseMeetings(st, c), Some(st.items[j].id))
  {
    var existing := CourseMeetings(st, c);
    FilterHas(st.items, Schedules.MeetingOf(c), st.items[j]);
    var k :| 0 <= k < |existing| && existing[k] == st.items[j];
  }

  /** The create phase keeps every meeting that survived the delete phase. */
  lemma CreatedKeepsRemoved(st: Schedules.State, c: int, ds: seq<RelatedSchedule>, x: Schedules.Schedule)
    requires x in st.items
    ensures x in CreateEach(st, c, ds).1.items
  {
    var r := CreateEach(st, c, ds);
    var q :| 0 <= q < |st.items| && st.items[q] == x;
    assert r.1.items[q] == r.1.items[..|st.items|][q];
  }

  /** A meeting of the course claimed by an entry survives the delete and
      create phases. */
  lemma ClaimedMeetingSurvives(st: Schedules.State, c: int, desired: seq<RelatedSchedule>, x: Schedules.Schedule)
    requires Schedules.IdsFresh(st)
    requires x in st.items && x.courseId == c && Wanted(desired, x.id)
    ensures var removed := DeleteEach(st, ToRemove(st, c, desired));
            x in CreateEach(removed.1, c, ToAdd(st, c, desired)).1.items
  {
    SyncRemovesExactlyObsolete(st, c, desired);
    var removed := DeleteEach(st, ToRemove(st, c, desired));
    CreatedKeepsRemoved(removed.1, c, ToAdd(st, c, desired), x);
  }

  /** After the delete and create phases the entries to update still name
      stored meetings of the course. */
  lemma KnownEntriesOwned(st: Schedules.State, c: int, desired: seq<RelatedSchedule>)
    requires Schedules.IdsFresh(st)
    ensures var removed := DeleteEach(st, ToRemove(st, c, desired));
            var created := CreateEach(removed.1, c, ToAdd(st, c, desired));
            && Schedules.IdsFresh(created.1)
            && OwnedBy(created.1.items, c, ToUpdate(st, c, desired))
  {
    SyncRemovesExactlyObsolete(st, c, desired);
    var removed := DeleteEach(st, ToRemove(st, c, desired));
    var created := CreateEach(removed.1, c, ToAdd(st, c, desired));
    CreateEachFacts(removed.1, c, ToAdd(st, c, desired));
    var toUpdate := ToUpdate(st, c, desired);
    forall k | 0 <= k < |toUpdate|
      ensures toUpdate[k].id.Some? &&
              exists q :: 0 <= q < |created.1.items| && created.1.items[q].id == toUpdate[k].id.value && created.1.items[q].courseId == c
    {
      var d := toUpdate[k];
      ScheduleDiff(st, c, desired, d);
      var j :| 0 <= j < |st.items| && st.items[j].id == d.id.value && st.items[j].courseId == c;
      var i :| 0 <= i < |desired| && desired[i] == d;
      ClaimedMeetingSurvives(st, c, desired, st.items[j]);
      var q :| 0 <= q < |created.1.items| && created.1.items[q] == st.items[j];
    }
  }

  /** Where the delete and create phases leave the store, while ids name
      single meetings. */
  lemma CreatePhaseFacts(st: Schedules.State, c: int, desired: seq<RelatedSchedule>)
    requires Schedules.IdsFresh(st)
    ensures var removed := DeleteEach(st, ToRemove(st, c, desired));
            var created := CreateEach(removed.1, c, ToAdd(st, c, desired));
            && removed.0.Done?
            && Schedules.IdsFresh(created.1)
            && Filter(created.1.items, NotMeetingOf(c)) == Filter(st.items, NotMeetingOf(c))
            && forall x :: x in created.1.items && x.courseId == c && x.id <= st.last ==> Wanted(desired, x.id)
  {
    SyncRemovesExactlyObsolete(st, c, desired);
    var removed := DeleteEach(st, ToRemove(st, c, desired));
    var created := CreateEach(removed.1, c, ToAdd(st, c, desired));
    CreateEachFacts(removed.1, c, ToAdd(st, c, desired));
    var n := |removed.1.items|;
    forall x | x in created.1.items && x.courseId == c && x.id <= st.last ensures Wanted(desired, x.id) {
      var j :| 0 <= j < |created.1.items| && created.1.items[j] == x;
      assert j < n;
      assert x == created.1.items[..n][j];
    }
  }

  /** An update loop over entries taken from the form keeps "every meeting of
      the course with an id up to `bound` is claimed by an entry". */
  lemma UpdateKeepsClaimed(st: Schedules.State, c: int, ds: seq<RelatedSchedule>,
                           desired: seq<RelatedSchedule>, bound: int)
    requires forall k :: 0 <= k < |ds| ==> ds[k] in desired
    requires forall x :: x in st.items && x.courseId == c && x.id <= bound ==> Wanted(desired, x.id)
    ensures var r := UpdateEach(st, c, ds);
            forall x :: x in r.1.items && x.courseId == c && x.id <= bound ==> Wanted(desired, x.id)
  {
    var r := UpdateEach(st, c, ds);
    forall x | x in r.1.items && x.courseId == c && x.id <= bound ensures Wanted(desired, x.id) {
      var j :| 0 <= j < |r.1.items| && r.1.items[j] == x;
      if !Wanted(ds, st.items[j].id) {
        assert x == st.items[j];
      } else {
        var k :| 0 <= k < |ds| && ds[k].id == Some(st.items[j].id);
        var i :| 0 <= i < |desired| && desired[i] == ds[k];
      }
    }
  }

  /** A store whose records keep their ids and whose counter stays put keeps
      ids naming single meetings. */
  lemma SameIdsKeepFresh(a: Schedules.State, b: Schedules.State)
    requires Schedules.IdsFresh(a) && a.last == b.last && |a.items| == |b.items|
    requires forall j :: 0 <= j < |a.items| ==> b.items[j].id == a.items[j].id
    ensures Schedules.IdsFresh(b)
  {
    forall i | 0 <= i < |b.items| ensures Schedules.Key(b.items[i]) <= b.last {
      assert Schedules.Key(a.items[i]) <= a.last;
    }
    forall x, y | 0 <= x < y < |b.items| ensures Schedules.Key(b.items[x]) != Schedules.Key(b.items[y]) {
      assert Schedules.Key(a.items[x]) != Schedules.Key(a.items[y]);
    }
  }

  /** While ids name single meetings: ids keep naming single meetings, other
      courses' meetings are left exactly as they were, only a create can stop
      the routine, and no meeting of the course that existed before survives
      unless an entry claims its id. */
  lemma SyncSchedulesKeepsOthers(st: Schedules.State, c: int, desired: seq<RelatedSchedule>)
    requires Schedules.IdsFresh(st)
    ensures var r := SyncRelatedSchedules(st, c, desired);
            && Schedules.IdsFresh(r.1)
            && Filter(r.1.items, NotMeetingOf(c)) == Filter(st.items, NotMeetingOf(c))
            && (r.0.Failed? ==> r.0 == Failed(400, Schedules.BadFormat) || r.0 == Failed(409, Schedules.Overlap))
            && forall x :: x in r.1.items && x.courseId == c && x.id <= st.last ==> Wanted(desired, x.id)
  {
    CreatePhaseFacts(st, c, desired);
    var removed := DeleteEach(st, ToRemove(st, c, desired));
    var created := CreateEach(removed.1, c, ToAdd(st, c, desired));
    if created.0.Done? {
      KnownEntriesOwned(st, c, desired);
      var toUpdate := ToUpdate(st, c, desired);
      UpdateEachRuns(created.1, c, toUpdate);
      forall k | 0 <= k < |toUpdate| ensures toUpdate[k] in desired {
        assert toUpdate[k] in toUpdate;
      }
      UpdateKeepsClaimed(created.1, c, toUpdate, desired, st.last);
      SameIdsKeepFresh(created.1, UpdateEach(created.1, c, toUpdate).1);
    }
  }

  /** No entry to update claims an id the counter had not issued yet. */
  lemma NewIdsUnclaimed(st: Schedules.State, c: int, desired: seq<RelatedSchedule>, id: int)
    requires Schedules.IdsFresh(st) && id > st.last
    ensures !Wanted(ToUpdate(st, c, desired), id)
  {
    var toUpdate := ToUpdate(st, c, desired);
    forall m | 0 <= m < |toUpdate| ensures toUpdate[m].id != Some(id) {
      ScheduleDiff(st, c, desired, toUpdate[m]);
      assert toUpdate[m] in toUpdate;
    }
  }

  /** The update loop leaves a meeting no entry claims where it was. */
  lemma UnclaimedStays(st: Schedules.State, c: int, ds: seq<RelatedSchedule>, j: int)
    requires 0 <= j < |st.items| && !Wanted(ds, st.items[j].id)
    ensures st.items[j] in UpdateEach(st, c, ds).1.items
  {
    assert UpdateEach(st, c, ds).1.items[j] == st.items[j];
  }

  /** The delete and create phases of a sync that ran to the end. */
  lemma DonePhases(st: Schedules.State, c: int, desired: seq<RelatedSchedule>)
    requires SyncRelatedSchedules(st, c, desired).0.Done?
    ensures var removed := DeleteEach(st, ToRemove(st, c, desired));
            var created := CreateEach(removed.1, c, ToAdd(st, c, desired));
            && removed.0.Done? && created.0.Done?
            && SyncRelatedSchedules(st, c, desired) == UpdateEach(created.1, c, ToUpdate(st, c, desired))
  {
  }

  /** A meeting for every new entry, numbered from `last + 1` in list order,
      with the course forced to `c` and the classroom taken from the entry. */
  predicate StoresNew(items: seq<Schedules.Schedule>, last: int, c: int, toAdd: seq<RelatedSchedule>) {
    forall k :: 0 <= k < |toAdd| ==> Meeting(last + 1 + k, c, toAdd[k]) in items
  }

  /** Meetings the create loop stored survive an update loop that claims none
      of the new ids. */
  lemma CreatedSurviveUpdate(base: Schedules.State, c: int, toAdd: seq<RelatedSchedule>,
                             toUpdate: seq<RelatedSchedule>)
    requires CreateEach(base, c, toAdd).0.Done?
    requires forall id :: id > base.last ==> !Wanted(toUpdate, id)
    ensures StoresNew(UpdateEach(CreateEach(base, c, toAdd).1, c, toUpdate).1.items, base.last, c, toAdd)
  {
    var created := CreateEach(base, c, toAdd);
    forall k | 0 <= k < |toAdd|
      ensures Meeting(base.last + 1 + k, c, toAdd[k]) in UpdateEach(created.1, c, toUpdate).1.items
    {
      assert created.1.items[|base.items| + k] == Meeting(base.last + 1 + k, c, toAdd[k]);
      assert !Wanted(toUpdate, base.last + 1 + k);
      UnclaimedStays(created.1, c, toUpdate, |base.items| + k);
    }
  }

  /** A sync that runs to the end, while ids name single meetings, stores a
      meeting for every new entry, numbered by the counter in list order. */
  lemma SyncCreatesNewEntries(st: Schedules.State, c: int, desired: seq<RelatedSchedule>)
    requires Schedules.IdsFresh(st)
    ensures var r := SyncRelatedSchedules(st, c, desired);
            r.0.Done? ==> StoresNew(r.1.items, st.last, c, ToAdd(st, c, desired))
  {
    if SyncRelatedSchedules(st, c, desired).0.Done? {
      DonePhases(st, c, desired);
      var removed := DeleteEach(st, ToRemove(st, c, desired));
      var toUpdate := ToUpdate(st, c, desired);
      forall id | id > removed.1.last ensures !Wanted(toUpdate, id) {
        NewIdsUnclaimed(st, c, desired, id);
      }
      CreatedSurviveUpdate(removed.1, c, ToAdd(st, c, desired), toUpdate);
    }
  }

  /** A sync that runs to the end, while ids name single meetings and no id is
      claimed twice, leaves every entry that names one of the course's meetings
      stored as the entry describes it (no overlap check on that path). */
  lemma SyncUpdatesKnownEntries(st: Schedules.State, c: int, desired: seq<RelatedSchedule>)
    requires Schedules.IdsFresh(st) && NoRepeatedIds(desired)
    ensures var r := SyncRelatedSchedules(st, c, desired);
            var toUpdate := ToUpdate(st, c, desired);
            r.0.Done? ==> forall k :: 0 <= k < |toUpdate| ==> Meeting(toUpdate[k].id.value, c, toUpdate[k]) in r.1.items
  {
    var r := SyncRelatedSchedules(st, c, desired);
    if r.0.Done? {
      DonePhases(st, c, desired);
      KnownEntriesOwned(st, c, desired);
      var removed := DeleteEach(st, ToRemove(st, c, desired));
      var created := CreateEach(removed.1, c, ToAdd(st, c, desired));
      var toUpdate := ToUpdate(st, c, desired);
      var claims := (a: RelatedSchedule, b: RelatedSchedule) => a.id.Some? ==> a.id != b.id;
      FilterPairwise(desired, IsKnown(CourseMeetings(st, c)), claims);
      assert DistinctBy(toUpdate, EntryId) by {
        forall a, b | 0 <= a < b < |toUpdate| ensures EntryId(toUpdate[a]) != EntryId(toUpdate[b]) {
          ScheduleDiff(st, c, desired, toUpdate[a]);
          assert toUpdate[a] in toUpdate;
          assert claims(toUpdate[a], toUpdate[b]);
        }
      }
      UpdateEachStores(created.1, c, toUpdate);
    }
  }

  /** As written, the schedule seed leaves the counter at 0, so the first
      meeting created gets id 1, which the seed meeting of course 1 already
      carries.  Syncing the new course with no entries then deletes by that id
      and removes the first match: course 1's Monday meeting, not the new one. */
  lemma SeedCollisionDeletesOtherCourse()
    ensures var cand := Schedules.Schedule(0, 5, Some(1), Schedules.Monday, "13:00", "14:00");
            var added := Schedules.CreateSchedule(Schedules.Seed, cand);
            var synced := SyncRelatedSchedules(added.1, 5, []);
            && added.0 == Ok(201, cand.(id := 1))
            && synced.0.Done?
            && synced.1.items == Schedules.Seed.items[1..] + [cand.(id := 1)]
  {
    var cand := Schedules.Schedule(0, 5, Some(1), Schedules.Monday, "13:00", "14:00");
    SeedCreateReusesId(cand);
    SyncAfterSeedCreate(cand.(id := 1));
  }

  /** The first create on the as-written seed issues id 1. */
  lemma SeedCreateReusesId(cand: Schedules.Schedule)
    requires cand == Schedules.Schedule(0, 5, Some(1), Schedules.Monday, "13:00", "14:00")
    ensures Schedules.CreateSchedule(Schedules.Seed, cand) ==
              (Ok(201, cand.(id := 1)), KeyedStore.Store(Schedules.Seed.items + [cand.(id := 1)], 1))
  {
    assert TimeOfDay.IsValidTimeFormat("13:00") && TimeOfDay.IsValidTimeFormat("14:00");
    forall i | 0 <= i < |Schedules.Seed.items| ensures !Schedules.Conflicts(Schedules.Seed.items[i], cand) {
    }
  }

  /** Syncing course 5 with no entries after that create deletes the seed
      meeting that shares the new meeting's id. */
  lemma SyncAfterSeedCreate(made: Schedules.Schedule)
    requires made == Schedules.Schedule(1, 5, Some(1), Schedules.Monday, "13:00", "14:00")
    ensures var synced := SyncRelatedSchedules(KeyedStore.Store(Schedules.Seed.items + [made], 1), 5, []);
            synced.0.Done? && synced.1.items == Schedules.Seed.items[1..] + [made]
  {
    SyncDeletesFirstHolder(Schedules.Seed.items, made, 1);
  }

  /** When the first stored meeting holds the id of a later-appended meeting of
      course `c`, and `c` has no other meeting, a sync of `c` with no entries
      deletes that first meeting and keeps the appended one. */
  lemma SyncDeletesFirstHolder(xs: seq<Schedules.Schedule>, made: Schedules.Schedule, last: nat)
    requires |xs| > 0 && xs[0].id == made.id
    requires forall i :: 0 <= i < |xs| ==> xs[i].courseId != made.courseId
    ensures var synced := SyncRelatedSchedules(KeyedStore.Store(xs + [made], last), made.courseId, []);
            synced == (Done, KeyedStore.Store(xs[1..] + [made], last))
  {
    var c := made.courseId;
    var st1 := KeyedStore.Store(xs + [made], last);
    SyncWithoutEntries(st1, c);
    FilterNone(xs, Schedules.MeetingOf(c));
    FilterSnoc(xs, made, Schedules.MeetingOf(c));
    assert CourseMeetings(st1, c) == [made];
    assert IsFirst(st1.items, Schedules.HasId(made.id), 0);
    var removed := Schedules.DeleteSchedule(st1, made.id);
    assert removed.1.items == RemoveAt(st1.items, 0);
    RemoveHeadOfSnoc(xs, made);
    assert DeleteEach(st1, [made]) == DeleteEach(removed.1, []);
  }

  /** With no entries, a sync is its delete phase alone. */
  lemma SyncWithoutEntries(st: Schedules.State, c: int)
    ensures SyncRelatedSchedules(st, c, []) == DeleteEach(st, CourseMeetings(st, c))
  {
    FilterAll(CourseMeetings(st, c), Unwanted([]));
  }

  /** With the counter past the seed ids, a sync of any course leaves every
      other course's meetings as they were, after any create. */
  lemma IntendedSeedSyncKeepsOthers(cand: Schedules.Schedule, c: int, desired: seq<RelatedSchedule>)
    ensures var added := Schedules.CreateSchedule(Schedules.IntendedSeed, cand);
            var synced := SyncRelatedSchedules(added.1, c, desired);
            Filter(synced.1.items, NotMeetingOf(c)) == Filter(added.1.items, NotMeetingOf(c))
  {
    Schedules.SeedIdsNotFresh();
    Schedules.CreateKeepsIdsFresh(Schedules.IntendedSeed, cand);
    SyncSchedulesKeepsOthers(Schedules.CreateSchedule(Schedules.IntendedSeed, cand).1, c, desired);
  }
}
