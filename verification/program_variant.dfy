/** `ProgramsAPI` of src/services/api/program-api.ts: a second copy of the
    programs store with its own array and counter and the same logic.  Its
    operations are those of `Programs`, applied to this copy's state. */
module ProgramVariant {
  import opened ApiResult
  import opened Seqs
  import KeyedStore
  import opened Programs

  /** The copy seeds the same five programs through its own `genID()`. */
  const VariantSeed: State := Seed

  function CreateProgramV(s: State, p: Program): (r: (Result<Program>, State))
    ensures (exists i :: 0 <= i < |s.items| && s.items[i].name == p.name) ==>
              r == (Err(409, "Name already taken"), s)
    ensures (forall i :: 0 <= i < |s.items| ==> s.items[i].name != p.name) ==>
              r.0 == Ok(201, p.(id := s.last + 1)) && r.1.items == s.items + [r.0.value] && r.1.last == s.last + 1
  {
    CreateProgram(s, p)
  }

  function GetProgramByIdV(s: State, id: int): (r: Result<Program>)
    ensures r.Ok? <==> exists i :: 0 <= i < |s.items| && s.items[i].id == id
    ensures r.Err? ==> r == Err(404, NotFound)
    ensures forall i :: IsFirst(s.items, HasId(id), i) ==> r == Ok(200, s.items[i])
  {
    GetProgramById(s, id)
  }

  function GetProgramByNameV(s: State, name: string): (r: Result<Program>)
    ensures r.Ok? <==> exists i :: 0 <= i < |s.items| && s.items[i].name == name
    ensures r.Err? ==> r == Err(404, NotFound)
    ensures forall i :: IsFirst(s.items, HasName(name), i) ==> r == Ok(200, s.items[i])
  {
    GetProgramByName(s, name)
  }

  /** Update and delete reject with 404 when no program has the id; otherwise
      they touch only the first program with it. */
  function UpdateProgramV(s: State, id: int, patch: ProgramPatch): (r: (Result<Program>, State))
    ensures r.0.Ok? <==> exists i :: 0 <= i < |s.items| && s.items[i].id == id
    ensures r.0.Err? ==> r == (Err(404, NotFound), s)
    ensures forall i :: IsFirst(s.items, HasId(id), i) ==>
              && r.0 == Ok(200, Merge(s.items[i], patch))
              && r.1.last == s.last
              && r.1.items == s.items[i := Merge(s.items[i], patch)]
              && forall j :: 0 <= j < |s.items| && j != i ==> r.1.items[j] == s.items[j]
  {
    UpdateProgram(s, id, patch)
  }

  function DeleteProgramV(s: State, id: int): (r: (Result<string>, State))
    ensures r.0.Ok? <==> exists i :: 0 <= i < |s.items| && s.items[i].id == id
    ensures r.0.Err? ==> r == (Err(404, NotFound), s)
    ensures r.0.Ok? ==> r.0 == Ok(204, Deleted) && r.1.last == s.last && |r.1.items| == |s.items| - 1
    ensures forall i :: IsFirst(s.items, HasId(id), i) ==> r.1.items == s.items[..i] + s.items[i + 1..]
  {
    DeleteProgram(s, id)
  }

  /** The copy's ids stay fresh: its seed is valid and create / delete keep it so. */
  lemma VariantIdsFresh(s: State, p: Program, id: int)
    requires Valid(s)
    ensures Valid(VariantSeed)
    ensures Valid(CreateProgramV(s, p).1) && Valid(DeleteProgramV(s, id).1)
    ensures var r := CreateProgramV(s, p);
            r.0.Ok? ==> forall i :: 0 <= i < |s.items| ==> s.items[i].id != r.0.value.id
  {
    SeedValid();
    CreateKeepsValid(s, p);
    DeleteKeepsValid(s, id);
  }
}
