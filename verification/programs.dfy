/** `ProgramsAPI` of src/services/api/programs-api.ts: programs with a unique
    name, ids taken from the module's counter (seeds included). */
module Programs {
  import opened ApiResult
  import opened Seqs
  import KeyedStore

  datatype Program = Program(id: int, name: string, description: string)

  /** `Partial<Program>`: a field is either given or absent. */
  datatype ProgramPatch = ProgramPatch(id: Option<int>, name: Option<string>, description: Option<string>)

  type State = KeyedStore.Store<Program>

  function Key(p: Program): int { p.id }
  function Name(p: Program): string { p.name }
  function WithId(p: Program, id: int): Program { p.(id := id) }
  function HasId(id: int): Program -> bool { (p: Program) => p.id == id }
  function HasName(name: string): Program -> bool { (p: Program) => p.name == name }

  /** `{ ...program, ...patch }`. */
  function Merge(p: Program, patch: ProgramPatch): Program {
    Program(patch.id.GetOr(p.id), patch.name.GetOr(p.name), patch.description.GetOr(p.description))
  }
  function MergeWith(patch: ProgramPatch): Program -> Program { (p: Program) => Merge(p, patch) }

  const NotFound := "Program not found"
  const Deleted := "Program deleted successfully"

  /** The five seed programs take ids 1..5 from `genID()`, so the counter
      ends at 5. */
  const Seed: State := KeyedStore.Store([
    Program(1, "Software Engineering", "Learn the principles of software design, development, and testing."),
    Program(2, "Data Science", "Explore data analysis, machine learning, and visualization techniques."),
    Program(3, "Cybersecurity", "Understand security measures, threat analysis, and ethical hacking."),
    Program(4, "Artificial Intelligence", "Study the fundamentals of AI and develop intelligent systems."),
    Program(5, "Web Development", "Build modern, responsive web applications using popular frameworks.")
  ], 5)

  /** Every id was issued by the counter, ids are distinct, names are distinct. */
  predicate Valid(s: State) {
    && KeyedStore.KeysIssued(s.items, Key, s.last)
    && DistinctBy(s.items, Key)
    && DistinctBy(s.items, Name)
  }

  function CreateProgram(s: State, p: Program): (r: (Result<Program>, State))
    ensures (exists i :: 0 <= i < |s.items| && s.items[i].name == p.name) ==>
              r == (Err(409, "Name already taken"), s)
    ensures (forall i :: 0 <= i < |s.items| ==> s.items[i].name != p.name) ==>
              && r.0 == Ok(201, p.(id := s.last + 1))
              && r.1 == KeyedStore.Store(s.items + [r.0.value], s.last + 1)
  {
    assert forall i :: 0 <= i < |s.items| ==> (HasName(p.name)(s.items[i]) <==> s.items[i].name == p.name);
    KeyedStore.Create(s, p, HasName(p.name), WithId, "Name already taken")
  }

  function GetProgramById(s: State, id: int): (r: Result<Program>)
    ensures r.Ok? <==> exists i :: 0 <= i < |s.items| && s.items[i].id == id
    ensures r.Err? ==> r == Err(404, NotFound)
    ensures forall i :: IsFirst(s.items, HasId(id), i) ==> r == Ok(200, s.items[i])
  {
    KeyedStore.Find(s.items, HasId(id), NotFound)
  }

  function GetProgramByName(s: State, name: string): (r: Result<Program>)
    ensures r.Ok? <==> exists i :: 0 <= i < |s.items| && s.items[i].name == name
    ensures r.Err? ==> r == Err(404, NotFound)
    ensures forall i :: IsFirst(s.items, HasName(name), i) ==> r == Ok(200, s.items[i])
  {
    KeyedStore.Find(s.items, HasName(name), NotFound)
  }

  /** No name re-check: the merged record may take a name already in use. */
  function UpdateProgram(s: State, id: int, patch: ProgramPatch): (r: (Result<Program>, State))
    ensures r.0.Ok? <==> exists i :: 0 <= i < |s.items| && s.items[i].id == id
    ensures r.0.Err? ==> r == (Err(404, NotFound), s)
    ensures forall i :: IsFirst(s.items, HasId(id), i) ==>
              r == (Ok(200, Merge(s.items[i], patch)),
                    KeyedStore.Store(s.items[i := Merge(s.items[i], patch)], s.last))
  {
    KeyedStore.Update(s, HasId(id), MergeWith(patch), NotFound)
  }

  function DeleteProgram(s: State, id: int): (r: (Result<string>, State))
    ensures r.0.Ok? <==> exists i :: 0 <= i < |s.items| && s.items[i].id == id
    ensures r.0.Err? ==> r == (Err(404, NotFound), s)
    ensures forall i :: IsFirst(s.items, HasId(id), i) ==>
              r == (Ok(204, Deleted), KeyedStore.Store(RemoveAt(s.items, i), s.last))
  {
    KeyedStore.Delete(s, HasId(id), NotFound, Deleted)
  }

  lemma SeedValid()
    ensures Valid(Seed)
  {
  }

  /** Create and delete keep the store valid; a created program gets an id no
      stored program has, so ids are never reused, even after a delete. */
  lemma CreateKeepsValid(s: State, p: Program)
    requires Valid(s)
    ensures var r := CreateProgram(s, p);
            && Valid(r.1)
            && (r.0.Ok? ==> forall i :: 0 <= i < |s.items| ==> s.items[i].id != r.0.value.id)
  {
    KeyedStore.CreateIssuesFreshKey(s, p, HasName(p.name), WithId, "Name already taken", Key);
    KeyedStore.CreateKeepsKeysDistinct(s, p, HasName(p.name), WithId, "Name already taken", Key);
    KeyedStore.CreateKeepsFieldUnique(s, p, HasName(p.name), WithId, "Name already taken", Name);
  }

  lemma DeleteKeepsValid(s: State, id: int)
    requires Valid(s)
    ensures Valid(DeleteProgram(s, id).1)
  {
    KeyedStore.DeleteKeeps(s, HasId(id), NotFound, Deleted, Key, Key);
    KeyedStore.DeleteKeeps(s, HasId(id), NotFound, Deleted, Key, Name);
  }

  /** An update that leaves the id alone keeps ids issued and distinct (names
      are not re-checked, see `UpdateCanDuplicateName`). */
  lemma UpdateKeepsIds(s: State, id: int, patch: ProgramPatch)
    requires patch.id.None?
    requires KeyedStore.KeysIssued(s.items, Key, s.last) && DistinctBy(s.items, Key)
    ensures var t := UpdateProgram(s, id, patch).1;
            KeyedStore.KeysIssued(t.items, Key, t.last) && DistinctBy(t.items, Key)
  {
    KeyedStore.UpdateKeepsKeys(s, HasId(id), MergeWith(patch), NotFound, Key);
  }

  /** Renaming a seed program to another seed program's name is accepted. */
  lemma UpdateCanDuplicateName()
    ensures var r := UpdateProgram(Seed, 2, ProgramPatch(None, Some("Software Engineering"), None));
            && r.0.Ok?
            && !DistinctBy(r.1.items, Name)
  {
    var r := UpdateProgram(Seed, 2, ProgramPatch(None, Some("Software Engineering"), None));
    assert IsFirst(Seed.items, HasId(2), 1);
    assert r.1.items[0].name == r.1.items[1].name;
  }

  /** In a valid store, a freshly created program is found by its new id. */
  lemma CreateThenGet(s: State, p: Program)
    requires Valid(s)
    requires forall i :: 0 <= i < |s.items| ==> s.items[i].name != p.name
    ensures var r := CreateProgram(s, p);
            r.0.Ok? && GetProgramById(r.1, s.last + 1) == Ok(200, r.0.value)
  {
    assert !Any(s.items, HasName(p.name));
    KeyedStore.CreateThenFind(s, p, HasName(p.name), WithId, "Name already taken", HasId(s.last + 1), NotFound);
  }

  /** With distinct names, a lookup by name returns the one program with that
      name. */
  lemma GetByNameUnique(s: State, i: nat)
    requires DistinctBy(s.items, Name) && i < |s.items|
    ensures GetProgramByName(s, s.items[i].name) == Ok(200, s.items[i])
  {
    assert IsFirst(s.items, HasName(s.items[i].name), i);
  }
}
