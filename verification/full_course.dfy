/** The joining routes of `CourseAPI` in src/services/api/course-api.ts:
    `getFullCourses` (GET /fullCourses) reads every store to assemble each
    course with its classrooms, programs, schedules and professor, and
    `createFullCourse` (POST /fullCourses) upserts a course with all of them.
    The routes call the other API classes; here those classes' stores form one
    `World`.  `Promise.all` fan-out runs in list order, one call at a time. */
module FullCourses {
  import opened ApiResult
  import opened Seqs
  import opened RelationStore
  import KeyedStore
  import Courses
  import Classrooms
  import Programs
  import Schedules
  import Users
  import CoursePrograms
  import CourseClassrooms

  /** The module-level arrays the routes reach through the other API classes. */
  datatype World = World(courses: Courses.State, classrooms: Classrooms.State, programs: Programs.State,
                         schedules: Schedules.State, users: Users.State,
                         coursePrograms: seq<Link>, courseClassrooms: seq<Link>)

  const Seed: World := World(Courses.Seed, Classrooms.Seed, Programs.Seed, Schedules.Seed, Users.Seed,
                             CoursePrograms.Seed, CourseClassrooms.Seed)

  // ---------------------------------------------------------------------
  // getFullCourses
  // ---------------------------------------------------------------------

  /** `{ ...schedule, classroom }`. */
  datatype PlacedSchedule = PlacedSchedule(schedule: Schedules.Schedule, classroom: Classrooms.Classroom)

  /** One entry of GET /fullCourses.  `professor` is the user record exactly
      as `getUserById` returns it, password included. */
  datatype FullCourse = FullCourse(course: Courses.Course, classrooms: seq<Classrooms.Classroom>,
                                   programs: seq<Programs.Program>, schedules: seq<PlacedSchedule>,
                                   professor: Users.User)

  const FetchError := "Error fetching data"

  /** `Promise.all(keys.map(lookup))`: every lookup's data, or nothing as soon
      as one lookup is rejected. */
  function ResolveAll<K, T>(keys: seq<K>, lookup: K -> Result<T>): (r: Option<seq<T>>)
    ensures r.Some? <==> forall i :: 0 <= i < |keys| ==> lookup(keys[i]).Ok?
    ensures r.Some? ==> |r.value| == |keys| && forall i :: 0 <= i < |keys| ==> r.value[i] == lookup(keys[i]).value
  {
    if |keys| == 0 then Some([])
    else
      var head := lookup(keys[0]);
      var rest := ResolveAll(keys[1..], lookup);
      assert forall i :: 1 <= i < |keys| ==> keys[i] == keys[1..][i - 1];
      if head.Err? || rest.None? then None
      else Some([head.value] + rest.value)
  }

  /** `getClassroomById(rel.classroom_id)`. */
  function ClassroomOfLink(s: Classrooms.State): Link -> Result<Classrooms.Classroom> {
    (l: Link) => Classrooms.GetClassroomById(s, l.otherId)
  }

  /** `getProgramById(rel.program_id)`. */
  function ProgramOfLink(s: Programs.State): Link -> Result<Programs.Program> {
    (l: Link) => Programs.GetProgramById(s, l.otherId)
  }

  /** `getClassroomById(schedule.classroom_id)` joined onto the schedule.  A
      schedule without a `classroom_id` matches no classroom, so its lookup is
      rejected like any unknown id. */
  function PlaceIn(s: Classrooms.State): Schedules.Schedule -> Result<PlacedSchedule> {
    (sch: Schedules.Schedule) =>
      match sch.classroomId
      case None => Err(404, Classrooms.NotFound)
      case Some(id) =>
        var found := Classrooms.GetClassroomById(s, id);
        if found.Ok? then Ok(found.status, PlacedSchedule(sch, found.value)) else Err(found.status, found.message)
  }

  /** The rows, schedules and lookups the entry of course `c` is built from. */
  function RoomLinks(w: World, c: Courses.Course): seq<Link> {
    CourseClassrooms.GetClassroomsByCourse(w.courseClassrooms, c.id).value
  }
  /** The route calls `getProgramsByCourse`, which `CourseProgramAPI` does not
      define; the lookup of the course's rows, `getRelsByCourseID`, stands in. */
  function ProgramLinks(w: World, c: Courses.Course): seq<Link> {
    CoursePrograms.GetRelsByCourseID(w.coursePrograms, c.id).value
  }
  function CourseSchedules(w: World, c: Courses.Course): seq<Schedules.Schedule> {
    Filter(w.schedules.items, Schedules.MeetingOf(c.id))
  }

  /** The body of the `courses.map` callback: the course's entry, or a
      rejection that the route turns into 500. */
  function JoinCourse(w: World, c: Courses.Course): (r: Result<FullCourse>)
    ensures r.Err? ==> r == Err(500, FetchError)
  {
    var rooms := ResolveAll(RoomLinks(w, c), ClassroomOfLink(w.classrooms));
    var programs := ResolveAll(ProgramLinks(w, c), ProgramOfLink(w.programs));
    var placed := ResolveAll(CourseSchedules(w, c), PlaceIn(w.classrooms));
    var professor := Users.GetUserById(w.users, c.userId);
    if rooms.Some? && programs.Some? && placed.Some? && professor.Ok? then
      Ok(200, FullCourse(c, rooms.value, programs.value, placed.value, professor.value))
    else Err(500, FetchError)
  }
  function JoinIn(w: World): Courses.Course -> Result<FullCourse> {
    (c: Courses.Course) => JoinCourse(w, c)
  }

  /** GET /fullCourses: one entry per stored course, in store order, or 500
      with no partial result. */
  function GetFullCourses(w: World): (r: Result<seq<FullCourse>>)
    ensures r.Err? ==> r == Err(500, FetchError)
    ensures r.Ok? ==> r.status == 200 && |r.value| == |w.courses.items|
  {
    match ResolveAll(w.courses.items, JoinIn(w))
    case Some(entries) => Ok(200, entries)
    case None => Err(500, FetchError)
  }

  predicate HasClassroom(s: Classrooms.State, id: int) {
    exists i :: 0 <= i < |s.items| && s.items[i].id == id
  }
  predicate HasProgram(s: Programs.State, id: int) {
    exists i :: 0 <= i < |s.items| && s.items[i].id == id
  }
  predicate HasUser(s: Users.State, id: int) {
    exists i :: 0 <= i < |s.items| && s.items[i].id == id
  }

  /** Every lookup the entry of course `c` needs finds a record: each of its
      classroom rows and program rows names a stored record, each of its
      schedules names a stored classroom, and its `user_id` names a user. */
  predicate Joinable(w: World, c: Courses.Course) {
    && (forall l :: l in w.courseClassrooms && l.courseId == c.id ==> HasClassroom(w.classrooms, l.otherId))
    && (forall l :: l in w.coursePrograms && l.courseId == c.id ==> HasProgram(w.programs, l.otherId))
    && (forall s :: s in w.schedules.items && s.courseId == c.id ==>
          s.classroomId.Some? && HasClassroom(w.classrooms, s.classroomId.value))
    && HasUser(w.users, c.userId)
  }

  /** What the entry of course `c` holds: the course itself; for each of its
      classroom rows and program rows, in row order, the record `find`
      returns for that id; its schedules in store order, each with the
      classroom `find` returns for its `classroom_id`; and the user `find`
      returns for its `user_id`. */
  ghost predicate Assembled(w: World, c: Courses.Course, e: FullCourse) {
    var rooms := RoomLinks(w, c);
    var programs := ProgramLinks(w, c);
    var meetings := CourseSchedules(w, c);
    && e.course == c
    && |e.classrooms| == |rooms|
    && (forall k :: 0 <= k < |rooms| ==>
          Found(w.classrooms.items, Classrooms.HasId(rooms[k].otherId), e.classrooms[k]))
    && |e.programs| == |programs|
    && (forall k :: 0 <= k < |programs| ==>
          Found(w.programs.items, Programs.HasId(programs[k].otherId), e.programs[k]))
    && |e.schedules| == |meetings|
    && (forall k :: 0 <= k < |meetings| ==>
          && e.schedules[k].schedule == meetings[k]
          && meetings[k].classroomId.Some?
          && Found(w.classrooms.items, Classrooms.HasId(meetings[k].classroomId.value), e.schedules[k].classroom))
    && Found(w.users.items, Users.HasId(c.userId), e.professor)
  }

  /** The classroom lookups of course `c` all succeed exactly when each of its
      classroom rows names a stored classroom, and then return those records. */
  lemma RoomsJoin(w: World, c: Courses.Course)
    ensures var rooms := ResolveAll(RoomLinks(w, c), ClassroomOfLink(w.classrooms));
            && (rooms.Some? <==> forall l :: l in w.courseClassrooms && l.courseId == c.id ==> HasClassroom(w.classrooms, l.otherId))
            && (rooms.Some? ==> forall k :: 0 <= k < |RoomLinks(w, c)| ==>
                  Found(w.classrooms.items, Classrooms.HasId(RoomLinks(w, c)[k].otherId), rooms.value[k]))
  {
    var links := RoomLinks(w, c);
    var rooms := ResolveAll(links, ClassroomOfLink(w.classrooms));
    forall l | l in w.courseClassrooms && l.courseId == c.id
      ensures l in links
    {
      FilterHas(w.courseClassrooms, OfCourse(c.id), l);
    }
    if rooms.Some? {
      forall k | 0 <= k < |links|
        ensures Found(w.classrooms.items, Classrooms.HasId(links[k].otherId), rooms.value[k])
      {
        LookupFound(w.classrooms, links[k].otherId);
      }
    }
  }

  /** A classroom lookup that succeeds returns the record `find` returns. */
  lemma LookupFound(s: Classrooms.State, id: int)
    requires HasClassroom(s, id)
    ensures Classrooms.GetClassroomById(s, id).Ok?
    ensures Found(s.items, Classrooms.HasId(id), Classrooms.GetClassroomById(s, id).value)
  {
    var i :| 0 <= i < |s.items| && s.items[i].id == id;
    assert Classrooms.HasId(id)(s.items[i]);
    FoundFirst(s.items, Classrooms.HasId(id), Classrooms.GetClassroomById(s, id).value);
  }

  lemma ProgramLookupFound(s: Programs.State, id: int)
    requires HasProgram(s, id)
    ensures Programs.GetProgramById(s, id).Ok?
    ensures Found(s.items, Programs.HasId(id), Programs.GetProgramById(s, id).value)
  {
    var i :| 0 <= i < |s.items| && s.items[i].id == id;
    assert Programs.HasId(id)(s.items[i]);
    FoundFirst(s.items, Programs.HasId(id), Programs.GetProgramById(s, id).value);
  }

  lemma UserLookupFound(s: Users.State, id: int)
    requires HasUser(s, id)
    ensures Users.GetUserById(s, id).Ok?
    ensures Found(s.items, Users.HasId(id), Users.GetUserById(s, id).value)
  {
    var i :| 0 <= i < |s.items| && s.items[i].id == id;
    assert Users.HasId(id)(s.items[i]);
    FoundFirst(s.items, Users.HasId(id), Users.GetUserById(s, id).value);
  }

  /** The program lookups of course `c` all succeed exactly when each of its
      program rows names a stored program, and then return those records. */
  lemma ProgramsJoin(w: World, c: Courses.Course)
    ensures var programs := ResolveAll(ProgramLinks(w, c), ProgramOfLink(w.programs));
            && (programs.Some? <==> forall l :: l in w.coursePrograms && l.courseId == c.id ==> HasProgram(w.programs, l.otherId))
            && (programs.Some? ==> forall k :: 0 <= k < |ProgramLinks(w, c)| ==>
                  Found(w.programs.items, Programs.HasId(ProgramLinks(w, c)[k].otherId), programs.value[k]))
  {
    var links := ProgramLinks(w, c);
    var programs := ResolveAll(links, ProgramOfLink(w.programs));
    forall l | l in w.coursePrograms && l.courseId == c.id
      ensures l in links
    {
      FilterHas(w.coursePrograms, OfCourse(c.id), l);
    }
    if programs.Some? {
      forall k | 0 <= k < |links|
        ensures Found(w.programs.items, Programs.HasId(links[k].otherId), programs.value[k])
      {
        ProgramLookupFound(w.programs, links[k].otherId);
      }
    }
  }

  /** The schedule lookups of course `c` all succeed exactly when each of its
      schedules names a stored classroom, and then join each schedule with
      that classroom. */
  lemma SchedulesJoin(w: World, c: Courses.Course)
    ensures var placed := ResolveAll(CourseSchedules(w, c), PlaceIn(w.classrooms));
            && (placed.Some? <==> forall s :: s in w.schedules.items && s.courseId == c.id ==>
                                    s.classroomId.Some? && HasClassroom(w.classrooms, s.classroomId.value))
            && (placed.Some? ==> forall k :: 0 <= k < |CourseSchedules(w, c)| ==>
                  && placed.value[k].schedule == CourseSchedules(w, c)[k]
                  && CourseSchedules(w, c)[k].classroomId.Some?
                  && Found(w.classrooms.items, Classrooms.HasId(CourseSchedules(w, c)[k].classroomId.value),
                           placed.value[k].classroom))
  {
    var meetings := CourseSchedules(w, c);
    var placed := ResolveAll(meetings, PlaceIn(w.classrooms));
    forall s | s in w.schedules.items && s.courseId == c.id
      ensures s in meetings
    {
      FilterHas(w.schedules.items, Schedules.MeetingOf(c.id), s);
    }
    forall k | 0 <= k < |meetings|
      ensures PlaceIn(w.classrooms)(meetings[k]).Ok? <==>
                meetings[k].classroomId.Some? && HasClassroom(w.classrooms, meetings[k].classroomId.value)
    {
    }
    if placed.Some? {
      forall k | 0 <= k < |meetings|
        ensures && placed.value[k].schedule == meetings[k]
                && meetings[k].classroomId.Some?
                && Found(w.classrooms.items, Classrooms.HasId(meetings[k].classroomId.value), placed.value[k].classroom)
      {
        assert PlaceIn(w.classrooms)(meetings[k]).Ok?;
        LookupFound(w.classrooms, meetings[k].classroomId.value);
      }
    }
  }

  /** The entry of course `c` is built exactly when every lookup it needs
      finds a record, and then holds what those lookups return. */
  lemma JoinCourseFacts(w: World, c: Courses.Course)
    ensures JoinCourse(w, c).Ok? <==> Joinable(w, c)
    ensures JoinCourse(w, c).Ok? ==> Assembled(w, c, JoinCourse(w, c).value)
  {
    RoomsJoin(w, c);
    ProgramsJoin(w, c);
    SchedulesJoin(w, c);
    if HasUser(w.users, c.userId) {
      UserLookupFound(w.users, c.userId);
    }
  }

  /** GET /fullCourses succeeds exactly when every course is joinable, and
      then its i-th entry is assembled from the i-th stored course. */
  lemma FullCoursesJoin(w: World)
    ensures GetFullCourses(w).Ok? <==> forall i :: 0 <= i < |w.courses.items| ==> Joinable(w, w.courses.items[i])
    ensures GetFullCourses(w).Ok? ==> forall i :: 0 <= i < |w.courses.items| ==>
              Assembled(w, w.courses.items[i], GetFullCourses(w).value[i])
  {
    forall i | 0 <= i < |w.courses.items|
      ensures JoinIn(w)(w.courses.items[i]).Ok? <==> Joinable(w, w.courses.items[i])
      ensures JoinIn(w)(w.courses.items[i]).Ok? ==>
                Assembled(w, w.courses.items[i], JoinIn(w)(w.courses.items[i]).value)
    {
      JoinCourseFacts(w, w.courses.items[i]);
    }
  }

  /** On the seed stores the join always fails: the seed schedules carry no
      `classroom_id`, so the first course's schedules find no classroom. */
  lemma SeedJoinFails()
    ensures GetFullCourses(Seed) == Err(500, FetchError)
  {
    var first := Seed.courses.items[0];
    assert Seed.schedules.items[0] in Seed.schedules.items && Seed.schedules.items[0].courseId == first.id;
    assert !Joinable(Seed, first);
    FullCoursesJoin(Seed);
  }

  // ---------------------------------------------------------------------
  // createFullCourse
  // ---------------------------------------------------------------------

  /** The professor fields of the form, echoed back untouched. */
  datatype Professor = Professor(firstName: string, lastName: string, email: string)

  /** The body of POST /fullCourses.  A classroom the form adds without an id
      is one whose id names no stored classroom. */
  datatype CourseForm = CourseForm(courseId: Option<int>, name: string,
                                   classrooms: seq<Classrooms.Classroom>, programs: seq<Programs.Program>,
                                   schedules: seq<Schedules.Schedule>, professor: Professor)

  /** The response: the stored course with the form's lists and professor. */
  datatype SavedCourse = SavedCourse(course: Courses.Course, classrooms: seq<Classrooms.Classroom>,
                                     programs: seq<Programs.Program>, schedules: seq<Schedules.Schedule>,
                                     professor: Professor)

  const SaveError := "Error creating full course"

  /** `if (newFullCourse.course_id)`: JavaScript truthiness, so an id of 0
      counts as absent. */
  predicate IsUpdate(form: CourseForm) {
    form.courseId.Some? && form.courseId.value != 0
  }

  /** Step 1: update the course named by the form's id, with the form's name
      and the acting user as owner, or else create one. */
  function SaveCourse(s: Courses.State, form: CourseForm, actingUser: int): (r: (Result<Courses.Course>, Courses.State))
    ensures r.0.Err? ==> r.1 == s
  {
    if IsUpdate(form) then
      Courses.UpdateCourse(s, form.courseId.value, Courses.CoursePatch(None, Some(form.name), Some(actingUser)))
    else Courses.CreateCourse(s, Courses.Course(0, form.name, actingUser))
  }

  /** Step 1 on the update path fails with 404 exactly when no course has the
      id, and otherwise rewrites that course in place with the form's name and
      the acting user; on the create path it fails with 409 exactly when the
      name is taken, and otherwise appends a course with the next id. */
  lemma SaveCourseFacts(s: Courses.State, form: CourseForm, actingUser: int)
    ensures var r := SaveCourse(s, form, actingUser);
            && (IsUpdate(form) ==>
                  && (r.0.Ok? <==> exists i :: 0 <= i < |s.items| && s.items[i].id == form.courseId.value)
                  && (r.0.Err? ==> r.0 == Err(404, Courses.NotFound))
                  && (r.0.Ok? ==> && r.0.value == Courses.Course(form.courseId.value, form.name, actingUser)
                                  && r.1.last == s.last && |r.1.items| == |s.items|
                                  && r.0.value in r.1.items))
            && (!IsUpdate(form) ==>
                  && (r.0.Err? <==> exists i :: 0 <= i < |s.items| && s.items[i].name == form.name)
                  && (r.0.Err? ==> r.0 == Err(409, Courses.Conflict))
                  && (r.0.Ok? ==> && r.0.value == Courses.Course(s.last + 1, form.name, actingUser)
                                  && r.1.items == s.items + [r.0.value] && r.1.last == s.last + 1))
  {
    if IsUpdate(form) {
      var id := form.courseId.value;
      var k := FindIndex(s.items, Courses.HasId(id));
      if k.Some? {
        assert IsFirst(s.items, Courses.HasId(id), k.value);
        assert SaveCourse(s, form, actingUser).1.items[k.value] == SaveCourse(s, form, actingUser).0.value;
      } else {
        forall i | 0 <= i < |s.items| ensures s.items[i].id != id {
          assert !Courses.HasId(id)(s.items[i]);
        }
      }
    }
  }

  /** Step 2, for one entry: `getClassroomById`, and `createClassroom` when
      the lookup is rejected. */
  function UpsertClassroom(s: Classrooms.State, room: Classrooms.Classroom): (r: (Result<Classrooms.Classroom>, Classrooms.State))
    ensures HasClassroom(s, room.id) ==> r.0.Ok? && r.0.value.id == room.id && r.1 == s
    ensures r.0.Ok? ==> HasClassroom(r.1, r.0.value.id)
    ensures !HasClassroom(s, room.id) ==>
              && (r.0.Err? <==> exists i :: 0 <= i < |s.items| && s.items[i].name == room.name)
              && (r.0.Err? ==> r == (Err(409, Classrooms.Conflict), s))
              && (r.0.Ok? ==> && r.0.value == room.(id := s.last + 1)
                              && r.1.items == s.items + [r.0.value] && r.1.last == s.last + 1)
  {
    var found := Classrooms.GetClassroomById(s, room.id);
    if found.Ok? then
      LookupFound(s, room.id);
      (found, s)
    else
      var created := Classrooms.CreateClassroom(s, room);
      assert created.0.Ok? ==> created.1.items[|s.items|] == created.0.value;
      created
  }

  /** Step 2: for each classroom entry in turn, resolve or create it, then
      `addClassroomToCourse`. */
  function LinkClassrooms(cs: Classrooms.State, rels: seq<Link>, c: int, rooms: seq<Classrooms.Classroom>)
    : (r: (Outcome, Classrooms.State, seq<Link>))
    decreases |rooms|
    ensures r.0.Failed? ==> r.0 == Failed(409, Classrooms.Conflict) || r.0 == Failed(409, CourseClassrooms.Conflict)
    ensures cs.items <= r.1.items && cs.last <= r.1.last && rels <= r.2
    ensures r.0.Done? ==> |r.2| == |rels| + |rooms|
  {
    if |rooms| == 0 then (Done, cs, rels)
    else
      var room := UpsertClassroom(cs, rooms[0]);
      if room.0.Err? then (Failed(room.0.status, room.0.message), room.1, rels)
      else
        var added := CourseClassrooms.AddClassroomToCourse(rels, c, room.0.value.id);
        if added.0.Err? then (Failed(added.0.status, added.0.message), room.1, added.1)
        else LinkClassrooms(room.1, added.1, c, rooms[1..])
  }

  /** A store that only grew still holds every classroom it held. */
  lemma GrownKeepsClassroom(a: Classrooms.State, b: Classrooms.State, id: int)
    requires a.items <= b.items && HasClassroom(a, id)
    ensures HasClassroom(b, id)
  {
    var i :| 0 <= i < |a.items| && a.items[i].id == id;
    assert b.items[i] == a.items[i];
  }

  /** From position `from` on, `rows` holds one row of course `c` per entry,
      in entry order; each row names a classroom stored in `after`, and an
      entry whose id was stored in `before` is linked under that id. */
  predicate LinkedRooms(rows: seq<Link>, from: int, c: int, rooms: seq<Classrooms.Classroom>,
                        before: Classrooms.State, after: Classrooms.State) {
    forall k :: 0 <= k < |rooms| ==> RowLinksRoom(rows, from + k, c, rooms[k], before, after)
  }

  /** Row `i` links course `c` to a classroom stored in `after`, under the
      entry's id when `before` already held it. */
  predicate RowLinksRoom(rows: seq<Link>, i: int, c: int, room: Classrooms.Classroom,
                         before: Classrooms.State, after: Classrooms.State) {
    && 0 <= i < |rows|
    && rows[i].courseId == c
    && HasClassroom(after, rows[i].otherId)
    && (HasClassroom(before, room.id) ==> rows[i].otherId == room.id)
  }

  lemma LinkedRoomsCons(rows: seq<Link>, from: int, c: int, rooms: seq<Classrooms.Classroom>,
                        before: Classrooms.State, mid: Classrooms.State, after: Classrooms.State, id: int)
    requires |rooms| > 0 && 0 <= from < |rows| && rows[from] == Link(c, id) && HasClassroom(after, id)
    requires HasClassroom(before, rooms[0].id) ==> id == rooms[0].id
    requires before.items <= mid.items
    requires LinkedRooms(rows, from + 1, c, rooms[1..], mid, after)
    ensures LinkedRooms(rows, from, c, rooms, before, after)
  {
    forall k | 0 <= k < |rooms| ensures RowLinksRoom(rows, from + k, c, rooms[k], before, after) {
      if k > 0 {
        var j := k - 1;
        assert RowLinksRoom(rows, from + 1 + j, c, rooms[1..][j], mid, after);
        assert rooms[1..][j] == rooms[k];
        if HasClassroom(before, rooms[k].id) {
          GrownKeepsClassroom(before, mid, rooms[k].id);
        }
      }
    }
  }

  /** When step 2 runs to the end, it appends one row of course `c` per entry,
      in the order the model runs the entries; each row names a classroom now stored, and an entry
      whose id was already stored is linked under that id. */
  lemma {:induction false} LinkClassroomsRows(cs: Classrooms.State, rels: seq<Link>, c: int,
                                              rooms: seq<Classrooms.Classroom>)
    ensures var r := LinkClassrooms(cs, rels, c, rooms);
            r.0.Done? ==> LinkedRooms(r.2, |rels|, c, rooms, cs, r.1)
    decreases |rooms|
  {
    if |rooms| > 0 {
      var room := UpsertClassroom(cs, rooms[0]);
      if room.0.Ok? {
        var added := CourseClassrooms.AddClassroomToCourse(rels, c, room.0.value.id);
        if added.0.Ok? {
          var r := LinkClassrooms(room.1, added.1, c, rooms[1..]);
          LinkClassroomsRows(room.1, added.1, c, rooms[1..]);
          LinkedRoomsStep(rels, c, rooms, cs, room.1, room.0.value.id, added.1, r);
        }
      }
    }
  }

  lemma LinkedRoomsStep(rels: seq<Link>, c: int, rooms: seq<Classrooms.Classroom>, cs: Classrooms.State,
                        mid: Classrooms.State, id: int, added: seq<Link>,
                        r: (Outcome, Classrooms.State, seq<Link>))
    requires |rooms| > 0 && HasClassroom(mid, id) && cs.items <= mid.items
    requires HasClassroom(cs, rooms[0].id) ==> id == rooms[0].id
    requires added == rels + [Link(c, id)]
    requires mid.items <= r.1.items && added <= r.2
    requires r.0.Done? ==> LinkedRooms(r.2, |added|, c, rooms[1..], mid, r.1)
    ensures r.0.Done? ==> LinkedRooms(r.2, |rels|, c, rooms, cs, r.1)
  {
    if r.0.Done? {
      assert r.2[|rels|] == added[|rels|];
      GrownKeepsClassroom(mid, r.1, id);
      LinkedRoomsCons(r.2, |rels|, c, rooms, cs, mid, r.1, id);
    }
  }

  /** When every entry's id names a stored classroom, step 2 creates none. */
  lemma {:induction false} LinkClassroomsReuse(cs: Classrooms.State, rels: seq<Link>, c: int,
                                               rooms: seq<Classrooms.Classroom>)
    requires forall k :: 0 <= k < |rooms| ==> HasClassroom(cs, rooms[k].id)
    ensures LinkClassrooms(cs, rels, c, rooms).1 == cs
    decreases |rooms|
  {
    if |rooms| > 0 {
      assert HasClassroom(cs, rooms[0].id);
      var added := CourseClassrooms.AddClassroomToCourse(rels, c, rooms[0].id);
      if added.0.Ok? {
        assert forall k :: 0 <= k < |rooms[1..]| ==> rooms[1..][k] == rooms[k + 1];
        LinkClassroomsReuse(cs, added.1, c, rooms[1..]);
      }
    }
  }

  /** Some stored program has this name. */
  predicate NameTaken(s: Programs.State, name: string) {
    exists i :: 0 <= i < |s.items| && s.items[i].name == name
  }

  /** A stored program has this id and this name. */
  predicate HasNamedProgram(s: Programs.State, id: int, name: string) {
    exists i :: 0 <= i < |s.items| && s.items[i].id == id && s.items[i].name == name
  }

  /** Step 3, for one entry: `getProgramByName`, and `createProgram` when the
      lookup is rejected.  In the model's order the create directly follows a
      failed lookup by the same name, so this never fails; in the source two
      entries with the same new name both miss the lookup, and the second
      create gets 409. */
  function UpsertProgram(s: Programs.State, p: Programs.Program): (r: (Result<Programs.Program>, Programs.State))
    ensures r.0.Ok? && r.0.value.name == p.name && HasNamedProgram(r.1, r.0.value.id, p.name)
    ensures (exists i :: 0 <= i < |s.items| && s.items[i].name == p.name) ==>
              r.1 == s && Found(s.items, Programs.HasName(p.name), r.0.value)
    ensures (forall i :: 0 <= i < |s.items| ==> s.items[i].name != p.name) ==>
              && r.0.value == p.(id := s.last + 1)
              && r.1.items == s.items + [r.0.value] && r.1.last == s.last + 1
  {
    var found := Programs.GetProgramByName(s, p.name);
    if found.Ok? then
      NameLookupFound(s, p.name);
      (found, s)
    else
      var created := Programs.CreateProgram(s, p);
      assert created.1.items[|s.items|] == created.0.value;
      created
  }

  /** A program lookup by name that succeeds returns the record `find` returns. */
  lemma NameLookupFound(s: Programs.State, name: string)
    requires exists i :: 0 <= i < |s.items| && s.items[i].name == name
    ensures Programs.GetProgramByName(s, name).Ok?
    ensures Found(s.items, Programs.HasName(name), Programs.GetProgramByName(s, name).value)
    ensures HasNamedProgram(s, Programs.GetProgramByName(s, name).value.id, name)
  {
    var i :| 0 <= i < |s.items| && s.items[i].name == name;
    assert Programs.HasName(name)(s.items[i]);
    var found := Programs.GetProgramByName(s, name).value;
    FoundFirst(s.items, Programs.HasName(name), found);
    var j :| 0 <= j < |s.items| && IsFirst(s.items, Programs.HasName(name), j) && s.items[j] == found;
    assert s.items[j].id == found.id && s.items[j].name == name;
  }

  /** Step 3: for each program entry in turn, resolve it by name or create
      it, then link it.  The route calls `addCourseProgramRelation`, which
      `CourseProgramAPI` does not define; `addRelation` stands in.  Only the
      relation can be rejected. */
  function LinkPrograms(ps: Programs.State, rels: seq<Link>, c: int, programs: seq<Programs.Program>)
    : (r: (Outcome, Programs.State, seq<Link>))
    decreases |programs|
    ensures r.0.Failed? ==> r.0 == Failed(409, CoursePrograms.Conflict)
    ensures ps.items <= r.1.items && ps.last <= r.1.last && rels <= r.2
    ensures r.0.Done? ==> |r.2| == |rels| + |programs|
  {
    if |programs| == 0 then (Done, ps, rels)
    else
      var program := UpsertProgram(ps, programs[0]);
      var added := CoursePrograms.AddRelation(rels, c, program.0.value.id);
      if added.0.Err? then (Failed(added.0.status, added.0.message), program.1, added.1)
      else LinkPrograms(program.1, added.1, c, programs[1..])
  }

  /** A store that only grew still holds every program it held. */
  lemma GrownKeepsProgram(a: Programs.State, b: Programs.State, id: int, name: string)
    requires a.items <= b.items && HasNamedProgram(a, id, name)
    ensures HasNamedProgram(b, id, name)
  {
    var i :| 0 <= i < |a.items| && a.items[i].id == id && a.items[i].name == name;
    assert b.items[i] == a.items[i];
  }

  /** From position `from` on, `rows` holds one row of course `c` per entry,
      in entry order, each naming a program stored in `after` under the
      entry's name. */
  predicate LinkedPrograms(rows: seq<Link>, from: int, c: int, programs: seq<Programs.Program>,
                           after: Programs.State) {
    forall k :: 0 <= k < |programs| ==> RowLinksProgram(rows, from + k, c, programs[k], after)
  }

  /** Row `i` links course `c` to a program stored in `after` under the
      entry's name. */
  predicate RowLinksProgram(rows: seq<Link>, i: int, c: int, program: Programs.Program, after: Programs.State) {
    0 <= i < |rows| && rows[i].courseId == c && HasNamedProgram(after, rows[i].otherId, program.name)
  }

  lemma LinkedProgramsCons(rows: seq<Link>, from: int, c: int, programs: seq<Programs.Program>,
                           after: Programs.State, id: int)
    requires |programs| > 0 && 0 <= from < |rows| && rows[from] == Link(c, id)
    requires HasNamedProgram(after, id, programs[0].name)
    requires LinkedPrograms(rows, from + 1, c, programs[1..], after)
    ensures LinkedPrograms(rows, from, c, programs, after)
  {
    forall k | 0 <= k < |programs| ensures RowLinksProgram(rows, from + k, c, programs[k], after) {
      if k > 0 {
        var j := k - 1;
        assert RowLinksProgram(rows, from + 1 + j, c, programs[1..][j], after);
        assert programs[1..][j] == programs[k];
      }
    }
  }

  /** When step 3 runs to the end, it appends one row of course `c` per entry,
      in the order the model runs the entries, each naming a stored program with the entry's name. */
  lemma {:induction false} LinkProgramsRows(ps: Programs.State, rels: seq<Link>, c: int,
                                            programs: seq<Programs.Program>)
    ensures var r := LinkPrograms(ps, rels, c, programs);
            r.0.Done? ==> LinkedPrograms(r.2, |rels|, c, programs, r.1)
    decreases |programs|
  {
    if |programs| > 0 {
      var program := UpsertProgram(ps, programs[0]);
      var added := CoursePrograms.AddRelation(rels, c, program.0.value.id);
      if added.0.Ok? {
        var r := LinkPrograms(program.1, added.1, c, programs[1..]);
        LinkProgramsRows(program.1, added.1, c, programs[1..]);
        LinkedProgramsStep(rels, c, programs, program.1, program.0.value.id, added.1, r);
      }
    }
  }

  lemma LinkedProgramsStep(rels: seq<Link>, c: int, programs: seq<Programs.Program>, mid: Programs.State,
                           id: int, added: seq<Link>, r: (Outcome, Programs.State, seq<Link>))
    requires |programs| > 0 && HasNamedProgram(mid, id, programs[0].name)
    requires added == rels + [Link(c, id)]
    requires mid.items <= r.1.items && added <= r.2
    requires r.0.Done? ==> LinkedPrograms(r.2, |added|, c, programs[1..], r.1)
    ensures r.0.Done? ==> LinkedPrograms(r.2, |rels|, c, programs, r.1)
  {
    if r.0.Done? {
      assert r.2[|rels|] == added[|rels|];
      GrownKeepsProgram(mid, r.1, id, programs[0].name);
      LinkedProgramsCons(r.2, |rels|, c, programs, r.1, id);
    }
  }

  /** When every entry's name is already taken by a stored program, step 3
      creates no program. */
  lemma {:induction false} LinkProgramsReuse(ps: Programs.State, rels: seq<Link>, c: int,
                                             programs: seq<Programs.Program>)
    requires forall k :: 0 <= k < |programs| ==> NameTaken(ps, programs[k].name)
    ensures LinkPrograms(ps, rels, c, programs).1 == ps
    decreases |programs|
  {
    if |programs| > 0 {
      var program := UpsertProgram(ps, programs[0]);
      var added := CoursePrograms.AddRelation(rels, c, program.0.value.id);
      if added.0.Ok? {
        assert forall k :: 0 <= k < |programs[1..]| ==> programs[1..][k] == programs[k + 1];
        LinkProgramsReuse(ps, added.1, c, programs[1..]);
      }
    }
  }

  /** Stored schedule `t` is the form's schedule `s` for course `c`: same
      course, classroom, day, start and end. */
  predicate SameSlot(t: Schedules.Schedule, c: int, s: Schedules.Schedule) {
    && t.courseId == c && t.classroomId == s.classroomId && t.day == s.day
    && t.start == s.start && t.end == s.end
  }
  function SlotOf(c: int, s: Schedules.Schedule): Schedules.Schedule -> bool {
    (t: Schedules.Schedule) => SameSlot(t, c, s)
  }

  /** The form's schedule is already stored for course `c`. */
  predicate SlotStored(st: Schedules.State, c: int, s: Schedules.Schedule) {
    exists j :: 0 <= j < |st.items| && SameSlot(st.items[j], c, s)
  }

  /** Step 4: for each schedule entry in turn, `createSchedule` with the
      course id filled in, unless the same slot is already stored. */
  function AddMissingSchedules(st: Schedules.State, c: int, ss: seq<Schedules.Schedule>): (r: (Outcome, Schedules.State))
    decreases |ss|
    ensures r.0.Failed? ==> r.0 == Failed(400, Schedules.BadFormat) || r.0 == Failed(409, Schedules.Overlap)
    ensures st.items <= r.1.items && st.last <= r.1.last
    ensures forall k :: |st.items| <= k < |r.1.items| ==> r.1.items[k].courseId == c && st.last < r.1.items[k].id
  {
    if |ss| == 0 then (Done, st)
    else if Any(st.items, SlotOf(c, ss[0])) then AddMissingSchedules(st, c, ss[1..])
    else
      var created := Schedules.CreateSchedule(st, ss[0].(courseId := c));
      if created.0.Err? then (Failed(created.0.status, created.0.message), created.1)
      else
        var rest := AddMissingSchedules(created.1, c, ss[1..]);
        assert rest.1.items[|st.items|] == created.1.items[|st.items|];
        rest
  }

  /** A store that only grew still holds every slot it held. */
  lemma GrownKeepsSlot(a: Schedules.State, b: Schedules.State, c: int, s: Schedules.Schedule)
    requires a.items <= b.items && SlotStored(a, c, s)
    ensures SlotStored(b, c, s)
  {
    var j :| 0 <= j < |a.items| && SameSlot(a.items[j], c, s);
    assert b.items[j] == a.items[j];
  }

  /** When step 4 runs to the end, every schedule of the form is stored for
      the course. */
  lemma {:induction false} AddMissingStoresAll(st: Schedules.State, c: int, ss: seq<Schedules.Schedule>)
    ensures var r := AddMissingSchedules(st, c, ss);
            r.0.Done? ==> forall k :: 0 <= k < |ss| ==> SlotStored(r.1, c, ss[k])
    decreases |ss|
  {
    if |ss| > 0 {
      var mid := st;
      if Any(st.items, SlotOf(c, ss[0])) {
        var j :| 0 <= j < |st.items| && SlotOf(c, ss[0])(st.items[j]);
        assert SlotStored(st, c, ss[0]);
      } else {
        var created := Schedules.CreateSchedule(st, ss[0].(courseId := c));
        if created.0.Ok? {
          mid := created.1;
          assert created.1.items[|st.items|] == created.0.value;
          assert SlotStored(mid, c, ss[0]);
        }
      }
      var r := AddMissingSchedules(st, c, ss);
      if r.0.Done? {
        AddMissingStoresAll(mid, c, ss[1..]);
        assert r == AddMissingSchedules(mid, c, ss[1..]);
        GrownKeepsSlot(mid, r.1, c, ss[0]);
        forall k | 1 <= k < |ss| ensures SlotStored(r.1, c, ss[k]) {
          assert ss[1..][k - 1] == ss[k];
        }
      }
    }
  }

  /** When every schedule of the form is already stored for the course, step 4
      changes nothing. */
  lemma {:induction false} AddMissingSkipsStored(st: Schedules.State, c: int, ss: seq<Schedules.Schedule>)
    requires forall k :: 0 <= k < |ss| ==> SlotStored(st, c, ss[k])
    ensures AddMissingSchedules(st, c, ss) == (Done, st)
    decreases |ss|
  {
    if |ss| > 0 {
      var j :| 0 <= j < |st.items| && SameSlot(st.items[j], c, ss[0]);
      assert SlotOf(c, ss[0])(st.items[j]);
      assert forall k :: 0 <= k < |ss[1..]| ==> ss[1..][k] == ss[k + 1];
      AddMissingSkipsStored(st, c, ss[1..]);
    }
  }

  /** `m` is one of the form's schedules `ss` with the course id filled in
      (whatever id the store gave it), and that slot was not stored in `st`. */
  predicate MadeFromMissing(st: Schedules.State, c: int, ss: seq<Schedules.Schedule>, m: Schedules.Schedule) {
    exists j :: 0 <= j < |ss| && m == ss[j].(courseId := c, id := m.id) && !SlotStored(st, c, ss[j])
  }

  /** No schedule stored before position `k` has the slot of `items[k]` for
      course `c`. */
  predicate FreshSlot(items: seq<Schedules.Schedule>, c: int, k: int)
    requires 0 <= k < |items|
  {
    forall h :: 0 <= h < k ==> !SameSlot(items[h], c, items[k])
  }

  /** Step 4 creates a schedule only from an entry of the form whose slot was
      not stored for the course when it started. */
  lemma {:induction false} AddMissingCreatesOnlyMissing(st: Schedules.State, c: int, ss: seq<Schedules.Schedule>)
    ensures var r := AddMissingSchedules(st, c, ss);
            forall k :: |st.items| <= k < |r.1.items| ==> MadeFromMissing(st, c, ss, r.1.items[k])
    decreases |ss|
  {
    if |ss| > 0 {
      var r := AddMissingSchedules(st, c, ss);
      if Any(st.items, SlotOf(c, ss[0])) {
        assert r == AddMissingSchedules(st, c, ss[1..]);
        AddMissingCreatesOnlyMissing(st, c, ss[1..]);
        forall k | |st.items| <= k < |r.1.items| ensures MadeFromMissing(st, c, ss, r.1.items[k]) {
          var j :| 0 <= j < |ss[1..]| && r.1.items[k] == ss[1..][j].(courseId := c, id := r.1.items[k].id)
                   && !SlotStored(st, c, ss[1..][j]);
          assert ss[1..][j] == ss[j + 1];
        }
      } else {
        var created := Schedules.CreateSchedule(st, ss[0].(courseId := c));
        if created.0.Ok? {
          var mid := created.1;
          assert r == AddMissingSchedules(mid, c, ss[1..]);
          AddMissingCreatesOnlyMissing(mid, c, ss[1..]);
          forall h | 0 <= h < |st.items| ensures !SameSlot(st.items[h], c, ss[0]) {
            assert !SlotOf(c, ss[0])(st.items[h]);
          }
          forall k | |st.items| <= k < |r.1.items| ensures MadeFromMissing(st, c, ss, r.1.items[k]) {
            if k == |st.items| {
              assert r.1.items[k] == mid.items[k] == created.0.value;
            } else {
              var j :| 0 <= j < |ss[1..]| && r.1.items[k] == ss[1..][j].(courseId := c, id := r.1.items[k].id)
                       && !SlotStored(mid, c, ss[1..][j]);
              assert ss[1..][j] == ss[j + 1];
              forall h | 0 <= h < |st.items| ensures !SameSlot(st.items[h], c, ss[j + 1]) {
                assert st.items[h] == mid.items[h];
              }
            }
          }
        }
      }
    }
  }

  /** Step 4 never creates a schedule whose slot some schedule stored before it
      already has for the course, whether that one was there at the start or
      was created by an earlier entry. */
  lemma {:induction false} AddMissingCreatesFreshSlots(st: Schedules.State, c: int, ss: seq<Schedules.Schedule>)
    ensures var r := AddMissingSchedules(st, c, ss);
            forall k :: |st.items| <= k < |r.1.items| ==> FreshSlot(r.1.items, c, k)
    decreases |ss|
  {
    if |ss| > 0 {
      var r := AddMissingSchedules(st, c, ss);
      if Any(st.items, SlotOf(c, ss[0])) {
        assert r == AddMissingSchedules(st, c, ss[1..]);
        AddMissingCreatesFreshSlots(st, c, ss[1..]);
      } else {
        var created := Schedules.CreateSchedule(st, ss[0].(courseId := c));
        if created.0.Ok? {
          var mid := created.1;
          var n := |st.items|;
          assert r == AddMissingSchedules(mid, c, ss[1..]);
          AddMissingCreatesFreshSlots(mid, c, ss[1..]);
          assert r.1.items[n] == created.0.value;
          forall h | 0 <= h < n ensures !SameSlot(r.1.items[h], c, r.1.items[n]) {
            assert r.1.items[h] == st.items[h];
            assert !SlotOf(c, ss[0])(st.items[h]);
          }
        }
      }
    }
  }

  /** Step 4 on the world. */
  function PlaceSchedules(w: World, c: int, form: CourseForm): (r: (Outcome, World))
    ensures r.1 == w.(schedules := r.1.schedules) && w.schedules.items <= r.1.schedules.items
  {
    var placed := AddMissingSchedules(w.schedules, c, form.schedules);
    (placed.0, w.(schedules := placed.1))
  }

  /** Step 3 on the world, then step 4 unless step 3 was rejected. */
  function AttachPrograms(w: World, c: int, form: CourseForm): (r: (Outcome, World))
    ensures r.1 == w.(programs := r.1.programs, coursePrograms := r.1.coursePrograms, schedules := r.1.schedules)
    ensures w.programs.items <= r.1.programs.items && w.coursePrograms <= r.1.coursePrograms
    ensures w.schedules.items <= r.1.schedules.items
  {
    var programs := LinkPrograms(w.programs, w.coursePrograms, c, form.programs);
    var w3 := w.(programs := programs.1, coursePrograms := programs.2);
    if programs.0.Failed? then (programs.0, w3) else PlaceSchedules(w3, c, form)
  }

  /** Step 2 on the world, then the later steps unless step 2 was rejected. */
  function AttachClassrooms(w: World, c: int, form: CourseForm): (r: (Outcome, World))
    ensures r.1.courses == w.courses && r.1.users == w.users
    ensures && w.classrooms.items <= r.1.classrooms.items && w.programs.items <= r.1.programs.items
            && w.schedules.items <= r.1.schedules.items
            && w.courseClassrooms <= r.1.courseClassrooms && w.coursePrograms <= r.1.coursePrograms
  {
    var rooms := LinkClassrooms(w.classrooms, w.courseClassrooms, c, form.classrooms);
    var w2 := w.(classrooms := rooms.1, courseClassrooms := rooms.2);
    if rooms.0.Failed? then (rooms.0, w2) else AttachPrograms(w2, c, form)
  }

  /** POST /fullCourses: the four steps in order; the first rejection ends the
      route with 500 and leaves every change made so far in place. */
  function CreateFullCourse(w: World, form: CourseForm, actingUser: int): (r: (Result<SavedCourse>, World))
    ensures r.0.Err? ==> r.0 == Err(500, SaveError)
    ensures r.1.users == w.users && r.1.courses == SaveCourse(w.courses, form, actingUser).1
    ensures SaveCourse(w.courses, form, actingUser).0.Err? ==> r.1 == w
    ensures && w.classrooms.items <= r.1.classrooms.items && w.programs.items <= r.1.programs.items
            && w.schedules.items <= r.1.schedules.items
            && w.courseClassrooms <= r.1.courseClassrooms && w.coursePrograms <= r.1.coursePrograms
    ensures r.0.Ok? ==> && r.0.status == 201 && SaveCourse(w.courses, form, actingUser).0.Ok?
                        && r.0.value.course == SaveCourse(w.courses, form, actingUser).0.value
                        && r.0.value.classrooms == form.classrooms && r.0.value.programs == form.programs
                        && r.0.value.schedules == form.schedules && r.0.value.professor == form.professor
  {
    var saved := SaveCourse(w.courses, form, actingUser);
    if saved.0.Err? then (Err(500, SaveError), w)
    else
      var linked := AttachClassrooms(w.(courses := saved.1), saved.0.value.id, form);
      if linked.0.Failed? then (Err(500, SaveError), linked.1)
      else (Ok(201, SavedCourse(saved.0.value, form.classrooms, form.programs, form.schedules, form.professor)), linked.1)
  }

  /** A route that answers 201 has linked every classroom entry and every
      program entry to the saved course, one row each after the rows already
      there, in the order the model runs the entries, and stores every schedule entry for it. */
  lemma CreateFullCourseLinks(w: World, form: CourseForm, actingUser: int)
    ensures var r := CreateFullCourse(w, form, actingUser);
            var saved := SaveCourse(w.courses, form, actingUser);
            r.0.Ok? ==>
              && saved.0.Ok?
              && LinkedRooms(r.1.courseClassrooms, |w.courseClassrooms|, saved.0.value.id, form.classrooms,
                             w.classrooms, r.1.classrooms)
              && LinkedPrograms(r.1.coursePrograms, |w.coursePrograms|, saved.0.value.id, form.programs, r.1.programs)
              && forall k :: 0 <= k < |form.schedules| ==> SlotStored(r.1.schedules, saved.0.value.id, form.schedules[k])
  {
    var saved := SaveCourse(w.courses, form, actingUser);
    if saved.0.Ok? {
      var c := saved.0.value.id;
      var w1 := w.(courses := saved.1);
      LinkClassroomsRows(w.classrooms, w.courseClassrooms, c, form.classrooms);
      var rooms := LinkClassrooms(w.classrooms, w.courseClassrooms, c, form.classrooms);
      var w2 := w1.(classrooms := rooms.1, courseClassrooms := rooms.2);
      LinkProgramsRows(w2.programs, w2.coursePrograms, c, form.programs);
      var programs := LinkPrograms(w2.programs, w2.coursePrograms, c, form.programs);
      var w3 := w2.(programs := programs.1, coursePrograms := programs.2);
      AddMissingStoresAll(w3.schedules, c, form.schedules);
    }
  }

  /** With every classroom entry naming a stored classroom, the route creates
      no classroom. */
  lemma CreateFullCourseReusesClassrooms(w: World, form: CourseForm, actingUser: int)
    requires forall k :: 0 <= k < |form.classrooms| ==> HasClassroom(w.classrooms, form.classrooms[k].id)
    ensures CreateFullCourse(w, form, actingUser).1.classrooms == w.classrooms
  {
    var saved := SaveCourse(w.courses, form, actingUser);
    if saved.0.Ok? {
      LinkClassroomsReuse(w.classrooms, w.courseClassrooms, saved.0.value.id, form.classrooms);
    }
  }

  /** With every program entry's name taken, the route creates no program. */
  lemma CreateFullCourseReusesPrograms(w: World, form: CourseForm, actingUser: int)
    requires forall k :: 0 <= k < |form.programs| ==> NameTaken(w.programs, form.programs[k].name)
    ensures CreateFullCourse(w, form, actingUser).1.programs == w.programs
  {
    var saved := SaveCourse(w.courses, form, actingUser);
    if saved.0.Ok? {
      var c := saved.0.value.id;
      var w1 := w.(courses := saved.1);
      var rooms := LinkClassrooms(w1.classrooms, w1.courseClassrooms, c, form.classrooms);
      if rooms.0.Done? {
        var w2 := w1.(classrooms := rooms.1, courseClassrooms := rooms.2);
        LinkProgramsReuse(w2.programs, w2.coursePrograms, c, form.programs);
        assert AttachPrograms(w2, c, form).1.programs == w.programs;
      }
    }
  }

  /** Re-saving an existing course whose schedule entries are all stored for
      it creates no schedule. */
  lemma ResaveKeepsSchedules(w: World, form: CourseForm, actingUser: int)
    requires IsUpdate(form)
    requires forall k :: 0 <= k < |form.schedules| ==> SlotStored(w.schedules, form.courseId.value, form.schedules[k])
    ensures CreateFullCourse(w, form, actingUser).1.schedules == w.schedules
  {
    var saved := SaveCourse(w.courses, form, actingUser);
    SaveCourseFacts(w.courses, form, actingUser);
    AddMissingSkipsStored(w.schedules, form.courseId.value, form.schedules);
  }

  /** Saving the form of an existing course a second time fails once its first
      classroom is linked: `addClassroomToCourse` rejects the repeated row, the
      route answers 500, and the course rewrite of step 1 stays in place while
      nothing else changes, since the model's `Promise.all` stops at that
      rejection. */
  lemma ResaveWithLinkedClassroomFails(w: World, form: CourseForm, actingUser: int)
    requires IsUpdate(form)
    requires exists i :: 0 <= i < |w.courses.items| && w.courses.items[i].id == form.courseId.value
    requires |form.classrooms| > 0 && HasClassroom(w.classrooms, form.classrooms[0].id)
    requires Link(form.courseId.value, form.classrooms[0].id) in w.courseClassrooms
    ensures var r := CreateFullCourse(w, form, actingUser);
            && r.0 == Err(500, SaveError)
            && r.1 == w.(courses := r.1.courses)
            && Courses.Course(form.courseId.value, form.name, actingUser) in r.1.courses.items
  {
    SaveCourseFacts(w.courses, form, actingUser);
  }

  // ---------------------------------------------------------------------
  // The two routes as written
  // ---------------------------------------------------------------------

  /** GET /fullCourses as written.  `CourseProgramAPI` has no
      `getProgramsByCourse`, so the join of the first course throws once its
      classrooms are read, and the route answers 500 as soon as one course is
      stored; with no course the `Promise.all` is empty. */
  function GetFullCoursesAsWritten(w: World): Result<seq<FullCourse>> {
    if |w.courses.items| == 0 then Ok(200, []) else Err(500, FetchError)
  }

  /** POST /fullCourses as written.  `AuthService` has no `getUserID`, so
      building the step-1 request throws inside the `try` on either branch,
      before any call is made: the route answers 500 and no store changes. */
  function CreateFullCourseAsWritten(w: World, form: CourseForm): (Result<SavedCourse>, World) {
    (Err(500, SaveError), w)
  }

  /** One course whose professor is stored, with nothing linked to it. */
  const OneCourse: World := World(KeyedStore.Store([Courses.Course(1, "Compilers", 2)], 1),
                                  KeyedStore.Store([], 0), KeyedStore.Store([], 0),
                                  KeyedStore.Store([], 0), Users.Seed, [], [])

  /** Over `OneCourse` the route with `getProgramsByCourse` in place answers
      200 with that course's entry, while the route as written answers 500;
      the two agree only on a world with no course. */
  lemma FullCoursesAsWrittenFails(w: World)
    ensures GetFullCoursesAsWritten(OneCourse) == Err(500, FetchError)
    ensures GetFullCourses(OneCourse).Ok? && GetFullCourses(OneCourse).value[0].course == OneCourse.courses.items[0]
    ensures GetFullCoursesAsWritten(w).Ok? ==> GetFullCourses(w) == GetFullCoursesAsWritten(w)
  {
    assert Users.Seed.items[1].id == 2;
    assert Joinable(OneCourse, OneCourse.courses.items[0]);
    FullCoursesJoin(OneCourse);
  }

  /** A new course with empty lists. */
  const NewCourseForm: CourseForm :=
    CourseForm(None, "Databases", [], [], [], Professor("Fabian", "Smith", "fabian.smith@university.com"))

  /** With `getUserID` in place the post of `NewCourseForm` over `OneCourse`
      answers 201 and stores the course; as written it answers 500 and stores
      nothing. */
  lemma CreateFullCourseAsWrittenFails()
    ensures CreateFullCourseAsWritten(OneCourse, NewCourseForm) == (Err(500, SaveError), OneCourse)
    ensures var r := CreateFullCourse(OneCourse, NewCourseForm, 2);
            && r.0.Ok? && r.0.status == 201 && r.0.value.course.name == "Databases"
            && r.1.courses != OneCourse.courses
  {
  }
}
