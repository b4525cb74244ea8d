/** `CourseClassroomAPI` of src/services/api/course-classroom-api.ts: the
    course <-> classroom relation (`otherId` is the `classroom_id`). */
module CourseClassrooms {
  import opened ApiResult
  import opened Seqs
  import opened RelationStore

  const Conflict := "This classroom is already assigned to this course"
  const NotFound := "Relation not found"
  const Removed := "Classroom removed from course successfully"

  const Seed: seq<Link> := [
    Link(1, 1), Link(1, 2), Link(2, 3), Link(2, 4), Link(3, 5), Link(4, 6),
    Link(4, 7), Link(5, 8), Link(5, 9), Link(6, 10), Link(7, 1), Link(7, 6),
    Link(8, 3), Link(8, 4), Link(9, 5), Link(9, 8), Link(10, 7), Link(10, 9)
  ]

  function AddClassroomToCourse(rels: seq<Link>, courseId: int, classroomId: int): (r: (Result<Link>, seq<Link>))
    ensures Link(courseId, classroomId) in rels ==> r == (Err(409, Conflict), rels)
    ensures Link(courseId, classroomId) !in rels ==>
              r == (Ok(201, Link(courseId, classroomId)), rels + [Link(courseId, classroomId)])
  {
    Add(rels, courseId, classroomId, Conflict)
  }

  function GetClassroomsByCourse(rels: seq<Link>, courseId: int): (r: Result<seq<Link>>)
    ensures r.Ok? && r.status == 200
    ensures forall i :: 0 <= i < |r.value| ==> r.value[i] in rels && r.value[i].courseId == courseId
    ensures forall i :: 0 <= i < |rels| && rels[i].courseId == courseId ==> rels[i] in r.value
    ensures KeepsInOrder(rels, OfCourse(courseId), r.value)
  {
    Ok(200, ByCourse(rels, courseId))
  }

  function GetCoursesByClassroom(rels: seq<Link>, classroomId: int): (r: Result<seq<Link>>)
    ensures r.Ok? && r.status == 200
    ensures forall i :: 0 <= i < |r.value| ==> r.value[i] in rels && r.value[i].otherId == classroomId
    ensures forall i :: 0 <= i < |rels| && rels[i].otherId == classroomId ==> rels[i] in r.value
    ensures KeepsInOrder(rels, OfOther(classroomId), r.value)
  {
    Ok(200, ByOther(rels, classroomId))
  }

  function RemoveClassroomFromCourse(rels: seq<Link>, courseId: int, classroomId: int): (r: (Result<string>, seq<Link>))
    ensures Link(courseId, classroomId) !in rels ==> r == (Err(404, NotFound), rels)
    ensures forall i :: IsFirst(rels, Is(courseId, classroomId), i) ==> r == (Ok(204, Removed), RemoveAt(rels, i))
  {
    Remove(rels, courseId, classroomId, NotFound, Removed)
  }

  /** The seed has no duplicate pair and add keeps it so. */
  lemma NoDuplicatePairs(rels: seq<Link>, courseId: int, classroomId: int)
    requires Distinct(rels)
    ensures Distinct(Seed)
    ensures Distinct(AddClassroomToCourse(rels, courseId, classroomId).1)
  {
    AddKeepsDistinct(rels, courseId, classroomId, Conflict);
  }

  /** Without duplicates, a successful remove leaves the pair absent. */
  lemma RemovedPairIsGone(rels: seq<Link>, courseId: int, classroomId: int)
    requires Distinct(rels)
    ensures var r := RemoveClassroomFromCourse(rels, courseId, classroomId);
            (r.0.Ok? <==> Link(courseId, classroomId) in rels) && Link(courseId, classroomId) !in r.1
  {
    RemoveUnderDistinct(rels, courseId, classroomId, NotFound, Removed);
  }

  /** Adding a fresh pair and then removing it restores the store. */
  lemma AddThenRemoveRestores(rels: seq<Link>, courseId: int, classroomId: int)
    requires Link(courseId, classroomId) !in rels
    ensures var a := AddClassroomToCourse(rels, courseId, classroomId);
            a.0.Ok? && RemoveClassroomFromCourse(a.1, courseId, classroomId) == (Ok(204, Removed), rels)
  {
    AddThenRemove(rels, courseId, classroomId, Conflict, NotFound, Removed);
  }
}
