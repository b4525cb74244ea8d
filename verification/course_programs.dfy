/** `CourseProgramAPI` of src/services/api/course-program-api.ts: the
    course <-> program relation (`otherId` is the `program_id`). */
module CoursePrograms {
  import opened ApiResult
  import opened Seqs
  import opened RelationStore

  const Conflict := "This course is already assigned to this program"
  const NotFound := "Course-Program relation not found"
  const Removed := "Course-Program relation removed successfully"

  const Seed: seq<Link> := [
    Link(1, 1), Link(1, 2), Link(2, 2), Link(3, 3), Link(4, 4), Link(5, 5),
    Link(6, 1), Link(7, 2), Link(8, 3), Link(9, 4), Link(10, 5)
  ]

  function AddRelation(rels: seq<Link>, courseId: int, programId: int): (r: (Result<Link>, seq<Link>))
    ensures Link(courseId, programId) in rels ==> r == (Err(409, Conflict), rels)
    ensures Link(courseId, programId) !in rels ==>
              r == (Ok(201, Link(courseId, programId)), rels + [Link(courseId, programId)])
  {
    Add(rels, courseId, programId, Conflict)
  }

  function GetRelsByCourseID(rels: seq<Link>, courseId: int): (r: Result<seq<Link>>)
    ensures r.Ok? && r.status == 200
    ensures forall i :: 0 <= i < |r.value| ==> r.value[i] in rels && r.value[i].courseId == courseId
    ensures forall i :: 0 <= i < |rels| && rels[i].courseId == courseId ==> rels[i] in r.value
    ensures KeepsInOrder(rels, OfCourse(courseId), r.value)
  {
    Ok(200, ByCourse(rels, courseId))
  }

  function GetRelsByProgramID(rels: seq<Link>, programId: int): (r: Result<seq<Link>>)
    ensures r.Ok? && r.status == 200
    ensures forall i :: 0 <= i < |r.value| ==> r.value[i] in rels && r.value[i].otherId == programId
    ensures forall i :: 0 <= i < |rels| && rels[i].otherId == programId ==> rels[i] in r.value
    ensures KeepsInOrder(rels, OfOther(programId), r.value)
  {
    Ok(200, ByOther(rels, programId))
  }

  function RemoveRelation(rels: seq<Link>, courseId: int, programId: int): (r: (Result<string>, seq<Link>))
    ensures Link(courseId, programId) !in rels ==> r == (Err(404, NotFound), rels)
    ensures forall i :: IsFirst(rels, Is(courseId, programId), i) ==> r == (Ok(204, Removed), RemoveAt(rels, i))
  {
    Remove(rels, courseId, programId, NotFound, Removed)
  }

  /** The seed has no duplicate pair and add keeps it so. */
  lemma NoDuplicatePairs(rels: seq<Link>, courseId: int, programId: int)
    requires Distinct(rels)
    ensures Distinct(Seed)
    ensures Distinct(AddRelation(rels, courseId, programId).1)
  {
    AddKeepsDistinct(rels, courseId, programId, Conflict);
  }

  /** Without duplicates, a successful remove leaves the pair absent. */
  lemma RemovedPairIsGone(rels: seq<Link>, courseId: int, programId: int)
    requires Distinct(rels)
    ensures var r := RemoveRelation(rels, courseId, programId);
            (r.0.Ok? <==> Link(courseId, programId) in rels) && Link(courseId, programId) !in r.1
  {
    RemoveUnderDistinct(rels, courseId, programId, NotFound, Removed);
  }

  /** Adding a fresh pair and then removing it restores the store. */
  lemma AddThenRemoveRestores(rels: seq<Link>, courseId: int, programId: int)
    requires Link(courseId, programId) !in rels
    ensures var a := AddRelation(rels, courseId, programId);
            a.0.Ok? && RemoveRelation(a.1, courseId, programId) == (Ok(204, Removed), rels)
  {
    AddThenRemove(rels, courseId, programId, Conflict, NotFound, Removed);
  }
}
