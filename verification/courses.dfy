/** The plain CRUD half of `CourseAPI` in src/services/api/course-api.ts.
    Seed courses hard-code ids 1..10 while the counter starts at 0, so ids
    are not unique once a course is created. */
module Courses {
  import opened ApiResult
  import opened Seqs
  import KeyedStore

  /** `user_id` is the owning professor. */
  datatype Course = Course(id: int, name: string, userId: int)

  /** `Partial<Course>`. */
  datatype CoursePatch = CoursePatch(id: Option<int>, name: Option<string>, userId: Option<int>)

  type State = KeyedStore.Store<Course>

  function Key(c: Course): int { c.id }
  function Name(c: Course): string { c.name }
  function WithId(c: Course, id: int): Course { c.(id := id) }
  function HasId(id: int): Course -> bool { (c: Course) => c.id == id }
  function HasName(name: string): Course -> bool { (c: Course) => c.name == name }

  /** `{ ...course, ...patch }`. */
  function Merge(c: Course, patch: CoursePatch): Course {
    Course(patch.id.GetOr(c.id), patch.name.GetOr(c.name), patch.userId.GetOr(c.userId))
  }
  function MergeWith(patch: CoursePatch): Course -> Course { (c: Course) => Merge(c, patch) }

  const NotFound := "Course not found"
  const Deleted := "Course deleted successfully"
  const Conflict := "This course already exists"

  const Seed: State := KeyedStore.Store([
    Course(1, "Introduction to Computer Science", 1),
    Course(2, "Advanced Data Structures", 2),
    Course(3, "Web Development", 3),
    Course(4, "Machine Learning", 1),
    Course(5, "Database Systems", 2),
    Course(6, "Cloud Computing", 3),
    Course(7, "Operating Systems", 1),
    Course(8, "Artificial Intelligence", 2),
    Course(9, "Software Engineering", 3),
    Course(10, "Computer Networks", 1)
  ], 0)

  function CreateCourse(s: State, c: Course): (r: (Result<Course>, State))
    ensures (exists i :: 0 <= i < |s.items| && s.items[i].name == c.name) ==> r == (Err(409, Conflict), s)
    ensures (forall i :: 0 <= i < |s.items| ==> s.items[i].name != c.name) ==>
              && r.0 == Ok(201, c.(id := s.last + 1))
              && r.1 == KeyedStore.Store(s.items + [r.0.value], s.last + 1)
  {
    assert forall i :: 0 <= i < |s.items| ==> (HasName(c.name)(s.items[i]) <==> s.items[i].name == c.name);
    KeyedStore.Create(s, c, HasName(c.name), WithId, Conflict)
  }

  function GetCoursesById(s: State, id: int): (r: Result<Course>)
    ensures r.Ok? <==> exists i :: 0 <= i < |s.items| && s.items[i].id == id
    ensures r.Err? ==> r == Err(404, NotFound)
    ensures forall i :: IsFirst(s.items, HasId(id), i) ==> r == Ok(200, s.items[i])
  {
    KeyedStore.Find(s.items, HasId(id), NotFound)
  }

  function GetCourseByName(s: State, name: string): (r: Result<Course>)
    ensures r.Ok? <==> exists i :: 0 <= i < |s.items| && s.items[i].name == name
    ensures r.Err? ==> r == Err(404, NotFound)
    ensures forall i :: IsFirst(s.items, HasName(name), i) ==> r == Ok(200, s.items[i])
  {
    KeyedStore.Find(s.items, HasName(name), NotFound)
  }

  /** No name re-check. */
  function UpdateCourse(s: State, id: int, patch: CoursePatch): (r: (Result<Course>, State))
    ensures r.0.Ok? <==> exists i :: 0 <= i < |s.items| && s.items[i].id == id
    ensures r.0.Err? ==> r == (Err(404, NotFound), s)
    ensures forall i :: IsFirst(s.items, HasId(id), i) ==>
              r == (Ok(200, Merge(s.items[i], patch)),
                    KeyedStore.Store(s.items[i := Merge(s.items[i], patch)], s.last))
  {
    KeyedStore.Update(s, HasId(id), MergeWith(patch), NotFound)
  }

  function DeleteCourse(s: State, id: int): (r: (Result<string>, State))
    ensures r.0.Ok? <==> exists i :: 0 <= i < |s.items| && s.items[i].id == id
    ensures r.0.Err? ==> r == (Err(404, NotFound), s)
    ensures forall i :: IsFirst(s.items, HasId(id), i) ==>
              r == (Ok(204, Deleted), KeyedStore.Store(RemoveAt(s.items, i), s.last))
  {
    KeyedStore.Delete(s, HasId(id), NotFound, Deleted)
  }

  /** Names stay unique under create (update does not re-check them). */
  lemma CreateKeepsNamesUnique(s: State, c: Course)
    requires DistinctBy(s.items, Name)
    ensures DistinctBy(CreateCourse(s, c).1.items, Name)
  {
    KeyedStore.CreateKeepsFieldUnique(s, c, HasName(c.name), WithId, Conflict, Name);
  }

  /** The first course created on the seed store gets `course_id` 1, already
      used by "Introduction to Computer Science", which a lookup of id 1
      still returns. */
  lemma FirstCreateCollidesWithSeed(c: Course)
    requires forall i :: 0 <= i < |Seed.items| ==> Seed.items[i].name != c.name
    ensures var r := CreateCourse(Seed, c);
            && r.0 == Ok(201, c.(id := 1))
            && !DistinctBy(r.1.items, Key)
            && GetCoursesById(r.1, 1) == Ok(200, Course(1, "Introduction to Computer Science", 1))
  {
    var r := CreateCourse(Seed, c);
    assert r.1.items[0].id == r.1.items[10].id;
    assert IsFirst(r.1.items, HasId(1), 0);
  }
}
