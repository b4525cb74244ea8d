/** `UserAPI` of src/services/api/user-api.ts: the older user store, with an
    `id` field and a single `role`, and the same create / find / update /
    delete pattern as `Users`. */
module LegacyUsers {
  import opened ApiResult
  import opened Seqs
  import KeyedStore

  datatype LegacyUser = LegacyUser(id: int, password: string, role: string,
                                   firstName: string, lastName: string, email: string)

  /** `Partial<User>` of this file. */
  datatype LegacyUserPatch = LegacyUserPatch(id: Option<int>, password: Option<string>, role: Option<string>,
                                             firstName: Option<string>, lastName: Option<string>,
                                             email: Option<string>)

  type State = KeyedStore.Store<LegacyUser>

  function Key(u: LegacyUser): int { u.id }
  function Email(u: LegacyUser): string { u.email }
  function WithId(u: LegacyUser, id: int): LegacyUser { u.(id := id) }
  function HasId(id: int): LegacyUser -> bool { (u: LegacyUser) => u.id == id }
  function HasEmail(email: string): LegacyUser -> bool { (u: LegacyUser) => u.email == email }

  /** `{ ...user, ...patch }`. */
  function Merge(u: LegacyUser, patch: LegacyUserPatch): LegacyUser {
    LegacyUser(patch.id.GetOr(u.id), patch.password.GetOr(u.password), patch.role.GetOr(u.role),
               patch.firstName.GetOr(u.firstName), patch.lastName.GetOr(u.lastName), patch.email.GetOr(u.email))
  }
  function MergeWith(patch: LegacyUserPatch): LegacyUser -> LegacyUser { (u: LegacyUser) => Merge(u, patch) }

  const NotFound := "User not found"
  const Deleted := "User deleted successfully"
  const Conflict := "Email already taken"

  const Seed: State := KeyedStore.Store([
    LegacyUser(1, "123", "student", "Jack", "Doe", "jack.doe@student.com"),
    LegacyUser(2, "123", "professor", "Fabian", "Smith", "fabian.smith@university.com"),
    LegacyUser(3, "123", "administrative", "Jane", "Johnson", "jane.johnson@university.com")
  ], 3)

  predicate Valid(s: State) {
    && KeyedStore.KeysIssued(s.items, Key, s.last)
    && DistinctBy(s.items, Key)
    && DistinctBy(s.items, Email)
  }

  function CreateUser(s: State, u: LegacyUser): (r: (Result<LegacyUser>, State))
    ensures (exists i :: 0 <= i < |s.items| && s.items[i].email == u.email) ==> r == (Err(409, Conflict), s)
    ensures (forall i :: 0 <= i < |s.items| ==> s.items[i].email != u.email) ==>
              && r.0 == Ok(201, u.(id := s.last + 1))
              && r.1 == KeyedStore.Store(s.items + [r.0.value], s.last + 1)
  {
    assert forall i :: 0 <= i < |s.items| ==> (HasEmail(u.email)(s.items[i]) <==> s.items[i].email == u.email);
    KeyedStore.Create(s, u, HasEmail(u.email), WithId, Conflict)
  }

  function GetUserById(s: State, id: int): (r: Result<LegacyUser>)
    ensures r.Ok? <==> exists i :: 0 <= i < |s.items| && s.items[i].id == id
    ensures r.Err? ==> r == Err(404, NotFound)
    ensures forall i :: IsFirst(s.items, HasId(id), i) ==> r == Ok(200, s.items[i])
  {
    KeyedStore.Find(s.items, HasId(id), NotFound)
  }

  function GetUserByEmail(s: State, email: string): (r: Result<LegacyUser>)
    ensures r.Ok? <==> exists i :: 0 <= i < |s.items| && s.items[i].email == email
    ensures r.Err? ==> r == Err(404, NotFound)
    ensures forall i :: IsFirst(s.items, HasEmail(email), i) ==> r == Ok(200, s.items[i])
  {
    KeyedStore.Find(s.items, HasEmail(email), NotFound)
  }

  function UpdateUser(s: State, id: int, patch: LegacyUserPatch): (r: (Result<LegacyUser>, State))
    ensures r.0.Ok? <==> exists i :: 0 <= i < |s.items| && s.items[i].id == id
    ensures r.0.Err? ==> r == (Err(404, NotFound), s)
    ensures forall i :: IsFirst(s.items, HasId(id), i) ==>
              r == (Ok(200, Merge(s.items[i], patch)),
                    KeyedStore.Store(s.items[i := Merge(s.items[i], patch)], s.last))
  {
    KeyedStore.Update(s, HasId(id), MergeWith(patch), NotFound)
  }

  function DeleteUser(s: State, id: int): (r: (Result<string>, State))
    ensures r.0.Ok? <==> exists i :: 0 <= i < |s.items| && s.items[i].id == id
    ensures r.0.Err? ==> r == (Err(404, NotFound), s)
    ensures forall i :: IsFirst(s.items, HasId(id), i) ==>
              r == (Ok(204, Deleted), KeyedStore.Store(RemoveAt(s.items, i), s.last))
  {
    KeyedStore.Delete(s, HasId(id), NotFound, Deleted)
  }

  /** The seed users have issued, distinct ids and distinct emails. */
  lemma SeedValid()
    ensures Valid(Seed)
  {
  }

  /** A create keeps the store valid, and a created user's id is never one
      already stored. */
  lemma CreateKeepsValid(s: State, u: LegacyUser)
    requires Valid(s)
    ensures Valid(CreateUser(s, u).1)
    ensures var r := CreateUser(s, u);
            r.0.Ok? ==> forall i :: 0 <= i < |s.items| ==> s.items[i].id != r.0.value.id
  {
    KeyedStore.CreateIssuesFreshKey(s, u, HasEmail(u.email), WithId, Conflict, Key);
    KeyedStore.CreateKeepsKeysDistinct(s, u, HasEmail(u.email), WithId, Conflict, Key);
    KeyedStore.CreateKeepsFieldUnique(s, u, HasEmail(u.email), WithId, Conflict, Email);
  }

  /** A delete keeps the store valid. */
  lemma DeleteKeepsValid(s: State, id: int)
    requires Valid(s)
    ensures Valid(DeleteUser(s, id).1)
  {
    KeyedStore.DeleteKeeps(s, HasId(id), NotFound, Deleted, Key, Key);
    KeyedStore.DeleteKeeps(s, HasId(id), NotFound, Deleted, Key, Email);
  }
}
