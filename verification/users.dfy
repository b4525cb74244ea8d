/** `UsersAPI` of src/services/api/users-api.ts: users keyed by `user_id`,
    with a unique email; seeds take their ids from the counter. */
module Users {
  import opened ApiResult
  import opened Seqs
  import KeyedStore

  datatype User = User(id: int, password: string, roles: seq<string>,
                       firstName: string, lastName: string, email: string)

  /** `Partial<User>`. */
  datatype UserPatch = UserPatch(id: Option<int>, password: Option<string>, roles: Option<seq<string>>,
                                 firstName: Option<string>, lastName: Option<string>, email: Option<string>)

  type State = KeyedStore.Store<User>

  function Key(u: User): int { u.id }
  function Email(u: User): string { u.email }
  function WithId(u: User, id: int): User { u.(id := id) }
  function HasId(id: int): User -> bool { (u: User) => u.id == id }
  function HasEmail(email: string): User -> bool { (u: User) => u.email == email }

  /** `{ ...user, ...patch }`. */
  function Merge(u: User, patch: UserPatch): User {
    User(patch.id.GetOr(u.id), patch.password.GetOr(u.password), patch.roles.GetOr(u.roles),
         patch.firstName.GetOr(u.firstName), patch.lastName.GetOr(u.lastName), patch.email.GetOr(u.email))
  }
  function MergeWith(patch: UserPatch): User -> User { (u: User) => Merge(u, patch) }

  const NotFound := "User not found"
  const Deleted := "User deleted successfully"
  const Conflict := "Email already taken"

  const Seed: State := KeyedStore.Store([
    User(1, "123", ["student"], "Jack", "Doe", "jack.doe@student.com"),
    User(2, "123", ["professor"], "Fabian", "Smith", "fabian.smith@university.com"),
    User(3, "123", ["administrative"], "Jane", "Johnson", "jane.johnson@university.com")
  ], 3)

  /** Every id was issued by the counter, ids are distinct, emails are distinct. */
  predicate Valid(s: State) {
    && KeyedStore.KeysIssued(s.items, Key, s.last)
    && DistinctBy(s.items, Key)
    && DistinctBy(s.items, Email)
  }

  function CreateUser(s: State, u: User): (r: (Result<User>, State))
    ensures (exists i :: 0 <= i < |s.items| && s.items[i].email == u.email) ==> r == (Err(409, Conflict), s)
    ensures (forall i :: 0 <= i < |s.items| ==> s.items[i].email != u.email) ==>
              && r.0 == Ok(201, u.(id := s.last + 1))
              && r.1 == KeyedStore.Store(s.items + [r.0.value], s.last + 1)
  {
    assert forall i :: 0 <= i < |s.items| ==> (HasEmail(u.email)(s.items[i]) <==> s.items[i].email == u.email);
    KeyedStore.Create(s, u, HasEmail(u.email), WithId, Conflict)
  }

  function GetUserById(s: State, id: int): (r: Result<User>)
    ensures r.Ok? <==> exists i :: 0 <= i < |s.items| && s.items[i].id == id
    ensures r.Err? ==> r == Err(404, NotFound)
    ensures forall i :: IsFirst(s.items, HasId(id), i) ==> r == Ok(200, s.items[i])
  {
    KeyedStore.Find(s.items, HasId(id), NotFound)
  }

  function GetUserByEmail(s: State, email: string): (r: Result<User>)
    ensures r.Ok? <==> exists i :: 0 <= i < |s.items| && s.items[i].email == email
    ensures r.Err? ==> r == Err(404, NotFound)
    ensures forall i :: IsFirst(s.items, HasEmail(email), i) ==> r == Ok(200, s.items[i])
  {
    KeyedStore.Find(s.items, HasEmail(email), NotFound)
  }

  /** No email re-check. */
  function UpdateUser(s: State, id: int, patch: UserPatch): (r: (Result<User>, State))
    ensures r.0.Ok? <==> exists i :: 0 <= i < |s.items| && s.items[i].id == id
    ensures r.0.Err? ==> r == (Err(404, NotFound), s)
    ensures forall i :: IsFirst(s.items, HasId(id), i) ==>
              r == (Ok(200, Merge(s.items[i], patch)),
                    KeyedStore.Store(s.items[i := Merge(s.items[i], patch)], s.last))
  {
    KeyedStore.Update(s, HasId(id), MergeWith(patch), NotFound)
  }

  function DeleteUser(s: State, id: int): (r: (Result<string>, State))
    ensures r.0.Ok? <==> exists i :: 0 <= i < |s.items| && s.items[i].id == id
    ensures r.0.Err? ==> r == (Err(404, NotFound), s)
    ensures forall i :: IsFirst(s.items, HasId(id), i) ==>
              r == (Ok(204, Deleted), KeyedStore.Store(RemoveAt(s.items, i), s.last))
  {
    KeyedStore.Delete(s, HasId(id), NotFound, Deleted)
  }

  lemma SeedValid()
    ensures Valid(Seed)
  {
  }

  /** Create and delete keep the store valid; a created user's id is fresh. */
  lemma CreateDeleteKeepValid(s: State, u: User, id: int)
    requires Valid(s)
    ensures Valid(CreateUser(s, u).1) && Valid(DeleteUser(s, id).1)
    ensures var r := CreateUser(s, u);
            r.0.Ok? ==> forall i :: 0 <= i < |s.items| ==> s.items[i].id != r.0.value.id
  {
    KeyedStore.CreateIssuesFreshKey(s, u, HasEmail(u.email), WithId, Conflict, Key);
    KeyedStore.CreateKeepsKeysDistinct(s, u, HasEmail(u.email), WithId, Conflict, Key);
    KeyedStore.CreateKeepsFieldUnique(s, u, HasEmail(u.email), WithId, Conflict, Email);
    KeyedStore.DeleteKeeps(s, HasId(id), NotFound, Deleted, Key, Key);
    KeyedStore.DeleteKeeps(s, HasId(id), NotFound, Deleted, Key, Email);
  }

  /** Changing a user's email to one in use is accepted. */
  lemma UpdateCanDuplicateEmail()
    ensures var r := UpdateUser(Seed, 1, UserPatch(None, None, None, None, None, Some("fabian.smith@university.com")));
            r.0.Ok? && !DistinctBy(r.1.items, Email)
  {
    var r := UpdateUser(Seed, 1, UserPatch(None, None, None, None, None, Some("fabian.smith@university.com")));
    assert IsFirst(Seed.items, HasId(1), 0);
    assert r.1.items[0].email == r.1.items[1].email;
  }

  /** With distinct emails, a lookup by email returns the one user with it. */
  lemma GetByEmailUnique(s: State, i: nat)
    requires DistinctBy(s.items, Email) && i < |s.items|
    ensures GetUserByEmail(s, s.items[i].email) == Ok(200, s.items[i])
  {
    assert IsFirst(s.items, HasEmail(s.items[i].email), i);
  }
}
