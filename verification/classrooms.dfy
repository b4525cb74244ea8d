/** `ClassroomAPI` of src/services/api/classrooms-api.ts.  The seed records
    hard-code ids 1..10 while the counter starts at 0, so ids are not unique
    once a classroom is created. */
module Classrooms {
  import opened ApiResult
  import opened Seqs
  import KeyedStore

  datatype Classroom = Classroom(id: int, name: string, capacity: int)

  /** `Partial<Classroom>`. */
  datatype ClassroomPatch = ClassroomPatch(id: Option<int>, name: Option<string>, capacity: Option<int>)

  type State = KeyedStore.Store<Classroom>

  function Key(c: Classroom): int { c.id }
  function Name(c: Classroom): string { c.name }
  function WithId(c: Classroom, id: int): Classroom { c.(id := id) }
  function HasId(id: int): Classroom -> bool { (c: Classroom) => c.id == id }
  function HasName(name: string): Classroom -> bool { (c: Classroom) => c.name == name }

  /** `{ ...classroom, ...patch }`. */
  function Merge(c: Classroom, patch: ClassroomPatch): Classroom {
    Classroom(patch.id.GetOr(c.id), patch.name.GetOr(c.name), patch.capacity.GetOr(c.capacity))
  }
  function MergeWith(patch: ClassroomPatch): Classroom -> Classroom { (c: Classroom) => Merge(c, patch) }

  const NotFound := "Classroom not found"
  const Deleted := "Classroom deleted successfully"
  const Conflict := "This classroom already exists"

  const Seed: State := KeyedStore.Store([
    Classroom(1, "Science Lab", 30),
    Classroom(2, "Math Room", 25),
    Classroom(3, "History Room", 20),
    Classroom(4, "Computer Lab", 35),
    Classroom(5, "Art Studio", 15),
    Classroom(6, "Physics Lab", 40),
    Classroom(7, "Chemistry Lab", 32),
    Classroom(8, "Music Room", 20),
    Classroom(9, "English Room", 28),
    Classroom(10, "Drama Studio", 25)
  ], 0)

  function CreateClassroom(s: State, c: Classroom): (r: (Result<Classroom>, State))
    ensures (exists i :: 0 <= i < |s.items| && s.items[i].name == c.name) ==> r == (Err(409, Conflict), s)
    ensures (forall i :: 0 <= i < |s.items| ==> s.items[i].name != c.name) ==>
              && r.0 == Ok(201, c.(id := s.last + 1))
              && r.1 == KeyedStore.Store(s.items + [r.0.value], s.last + 1)
  {
    assert forall i :: 0 <= i < |s.items| ==> (HasName(c.name)(s.items[i]) <==> s.items[i].name == c.name);
    KeyedStore.Create(s, c, HasName(c.name), WithId, Conflict)
  }

  function GetClassroomById(s: State, id: int): (r: Result<Classroom>)
    ensures r.Ok? <==> exists i :: 0 <= i < |s.items| && s.items[i].id == id
    ensures r.Err? ==> r == Err(404, NotFound)
    ensures forall i :: IsFirst(s.items, HasId(id), i) ==> r == Ok(200, s.items[i])
  {
    KeyedStore.Find(s.items, HasId(id), NotFound)
  }

  function GetClassroomByName(s: State, name: string): (r: Result<Classroom>)
    ensures r.Ok? <==> exists i :: 0 <= i < |s.items| && s.items[i].name == name
    ensures r.Err? ==> r == Err(404, NotFound)
    ensures forall i :: IsFirst(s.items, HasName(name), i) ==> r == Ok(200, s.items[i])
  {
    KeyedStore.Find(s.items, HasName(name), NotFound)
  }

  function UpdateClassroom(s: State, id: int, patch: ClassroomPatch): (r: (Result<Classroom>, State))
    ensures r.0.Ok? <==> exists i :: 0 <= i < |s.items| && s.items[i].id == id
    ensures r.0.Err? ==> r == (Err(404, NotFound), s)
    ensures forall i :: IsFirst(s.items, HasId(id), i) ==>
              r == (Ok(200, Merge(s.items[i], patch)),
                    KeyedStore.Store(s.items[i := Merge(s.items[i], patch)], s.last))
  {
    KeyedStore.Update(s, HasId(id), MergeWith(patch), NotFound)
  }

  function DeleteClassroom(s: State, id: int): (r: (Result<string>, State))
    ensures r.0.Ok? <==> exists i :: 0 <= i < |s.items| && s.items[i].id == id
    ensures r.0.Err? ==> r == (Err(404, NotFound), s)
    ensures forall i :: IsFirst(s.items, HasId(id), i) ==>
              r == (Ok(204, Deleted), KeyedStore.Store(RemoveAt(s.items, i), s.last))
  {
    KeyedStore.Delete(s, HasId(id), NotFound, Deleted)
  }

  /** Names stay unique under create (update does not re-check them). */
  lemma CreateKeepsNamesUnique(s: State, c: Classroom)
    requires DistinctBy(s.items, Name)
    ensures DistinctBy(CreateClassroom(s, c).1.items, Name)
  {
    KeyedStore.CreateKeepsFieldUnique(s, c, HasName(c.name), WithId, Conflict, Name);
  }

  /** The first classroom created on the seed store gets id 1, the id of
      "Science Lab", and a lookup of id 1 still returns "Science Lab". */
  lemma FirstCreateCollidesWithSeed(c: Classroom)
    requires forall i :: 0 <= i < |Seed.items| ==> Seed.items[i].name != c.name
    ensures var r := CreateClassroom(Seed, c);
            && r.0 == Ok(201, c.(id := 1))
            && !DistinctBy(r.1.items, Key)
            && GetClassroomById(r.1, 1) == Ok(200, Classroom(1, "Science Lab", 30))
  {
    var r := CreateClassroom(Seed, c);
    assert r.1.items[0].id == r.1.items[10].id;
    assert IsFirst(r.1.items, HasId(1), 0);
  }
}
