/** The pattern every entity API file repeats: a module-level array of records,
    a module-level `id` counter read through `genID()` (`return ++id`), and
    create / find / shallow-merge update / splice delete over the array.

    The operations are parameterised by the predicates the source passes to
    `some`, `find` and `findIndex`.  Callers build those predicates with named
    functions, so that the same predicate term is used at every call site. */
module KeyedStore {
  import opened ApiResult
  import opened Seqs

  /** The array and the counter: `last` is the counter's current value, so the
      next `genID()` returns `last + 1`. */
  datatype Store<T> = Store(items: seq<T>, last: nat)

  /** Every key in the store was issued by the counter: none exceeds `last`. */
  predicate KeysIssued<T>(items: seq<T>, key: T -> int, last: int) {
    forall i :: 0 <= i < |items| ==> key(items[i]) <= last
  }

  /** POST: reject with 409 when some stored record is `taken`; otherwise give
      the record the next id and append it. */
  function Create<T>(s: Store<T>, rec: T, taken: T -> bool, withId: (T, int) -> T, conflict: string)
    : (r: (Result<T>, Store<T>))
    ensures r.0.Err? <==> Any(s.items, taken)
    ensures r.0.Err? ==> r.0 == Err(409, conflict) && r.1 == s
    ensures r.0.Ok? ==> r.0 == Ok(201, withId(rec, s.last + 1))
    ensures r.0.Ok? ==> r.1.items == s.items + [r.0.value] && r.1.last == s.last + 1
  {
    if FindIndex(s.items, taken).Some? then (Err(409, conflict), s)
    else
      var created := withId(rec, s.last + 1);
      (Ok(201, created), Store(s.items + [created], s.last + 1))
  }

  /** GET by a field: the first record that matches, or 404. */
  function Find<T>(items: seq<T>, matches: T -> bool, notFound: string): (r: Result<T>)
    ensures r.Ok? <==> Any(items, matches)
    ensures r.Err? ==> r == Err(404, notFound)
    ensures forall i :: IsFirst(items, matches, i) ==> r == Ok(200, items[i])
  {
    match FindIndex(items, matches)
    case None => Err(404, notFound)
    case Some(i) =>
      assert forall j :: IsFirst(items, matches, j) ==> j == i;
      Ok(200, items[i])
  }

  /** PATCH: shallow-merge into the first matching record, or 404. */
  function Update<T>(s: Store<T>, matches: T -> bool, merge: T -> T, notFound: string)
    : (r: (Result<T>, Store<T>))
    ensures r.0.Ok? <==> Any(s.items, matches)
    ensures r.0.Err? ==> r == (Err(404, notFound), s)
    ensures forall i :: IsFirst(s.items, matches, i) ==>
              r == (Ok(200, merge(s.items[i])), Store(s.items[i := merge(s.items[i])], s.last))
  {
    match FindIndex(s.items, matches)
    case None => (Err(404, notFound), s)
    case Some(i) =>
      assert forall j :: IsFirst(s.items, matches, j) ==> j == i;
      (Ok(200, merge(s.items[i])), Store(s.items[i := merge(s.items[i])], s.last))
  }

  /** DELETE: splice out the first matching record and answer 204 with the
      route's `deleted` message, or 404. */
  function Delete<T>(s: Store<T>, matches: T -> bool, notFound: string, deleted: string)
    : (r: (Result<string>, Store<T>))
    ensures r.0.Ok? <==> Any(s.items, matches)
    ensures r.0.Err? ==> r == (Err(404, notFound), s)
    ensures forall i :: IsFirst(s.items, matches, i) ==>
              r == (Ok(204, deleted), Store(RemoveAt(s.items, i), s.last))
  {
    match FindIndex(s.items, matches)
    case None => (Err(404, notFound), s)
    case Some(i) =>
      assert forall j :: IsFirst(s.items, matches, j) ==> j == i;
      (Ok(204, deleted), Store(RemoveAt(s.items, i), s.last))
  }

  /** A successful create keeps every key issued, and the new key is larger
      than every key already stored, so it is fresh and unique. */
  lemma CreateIssuesFreshKey<T>(s: Store<T>, rec: T, taken: T -> bool, withId: (T, int) -> T,
                                conflict: string, key: T -> int)
    requires KeysIssued(s.items, key, s.last)
    requires key(withId(rec, s.last + 1)) == s.last + 1
    ensures var r := Create(s, rec, taken, withId, conflict);
            && KeysIssued(r.1.items, key, r.1.last)
            && (r.0.Ok? ==> forall i :: 0 <= i < |s.items| ==> key(s.items[i]) != key(r.0.value))
  {
  }

  /** Create keeps keys distinct when they were all issued by the counter. */
  lemma CreateKeepsKeysDistinct<T>(s: Store<T>, rec: T, taken: T -> bool, withId: (T, int) -> T,
                                   conflict: string, key: T -> int)
    requires KeysIssued(s.items, key, s.last) && DistinctBy(s.items, key)
    requires key(withId(rec, s.last + 1)) == s.last + 1
    ensures DistinctBy(Create(s, rec, taken, withId, conflict).1.items, key)
  {
  }

  /** Create never admits a second record with the same `field` value when
      `taken` is "has the same `field` value as the new record". */
  lemma CreateKeepsFieldUnique<T, K>(s: Store<T>, rec: T, taken: T -> bool, withId: (T, int) -> T,
                                     conflict: string, field: T -> K)
    requires DistinctBy(s.items, field)
    requires forall x :: taken(x) <==> field(x) == field(rec)
    requires field(withId(rec, s.last + 1)) == field(rec)
    ensures DistinctBy(Create(s, rec, taken, withId, conflict).1.items, field)
  {
    var r := Create(s, rec, taken, withId, conflict);
    if r.0.Ok? {
      forall i | 0 <= i < |s.items| ensures field(s.items[i]) != field(r.0.value) {
        assert !taken(s.items[i]);
      }
    }
  }

  /** Removing one record keeps issued keys issued and distinct keys distinct. */
  lemma RemoveAtKeeps<T, K>(items: seq<T>, i: nat, key: T -> int, last: int, field: T -> K)
    requires i < |items|
    ensures KeysIssued(items, key, last) ==> KeysIssued(RemoveAt(items, i), key, last)
    ensures DistinctBy(items, field) ==> DistinctBy(RemoveAt(items, i), field)
  {
    var r := RemoveAt(items, i);
    if DistinctBy(items, field) {
      forall a, b | 0 <= a < b < |r| ensures field(r[a]) != field(r[b]) {
        var a', b' := if a < i then a else a + 1, if b < i then b else b + 1;
        assert r[a] == items[a'] && r[b] == items[b'];
      }
    }
  }

  /** Delete keeps issued keys issued and distinct keys distinct, and removes
      exactly one record. */
  lemma DeleteKeeps<T, K>(s: Store<T>, matches: T -> bool, notFound: string, deleted: string,
                          key: T -> int, field: T -> K)
    ensures var r := Delete(s, matches, notFound, deleted);
            && (KeysIssued(s.items, key, s.last) ==> KeysIssued(r.1.items, key, r.1.last))
            && (DistinctBy(s.items, field) ==> DistinctBy(r.1.items, field))
            && |r.1.items| == if r.0.Ok? then |s.items| - 1 else |s.items|
  {
    var k := FindIndex(s.items, matches);
    if k.Some? {
      RemoveAtKeeps(s.items, k.value, key, s.last, field);
    }
  }

  /** An update whose merge keeps the key keeps issued keys issued and distinct
      keys distinct. */
  lemma UpdateKeepsKeys<T>(s: Store<T>, matches: T -> bool, merge: T -> T, notFound: string, key: T -> int)
    requires forall x :: key(merge(x)) == key(x)
    ensures var r := Update(s, matches, merge, notFound);
            && (KeysIssued(s.items, key, s.last) ==> KeysIssued(r.1.items, key, r.1.last))
            && (DistinctBy(s.items, key) ==> DistinctBy(r.1.items, key))
            && |r.1.items| == |s.items|
  {
    var k := FindIndex(s.items, matches);
    if k.Some? {
      var i := k.value;
      var t := s.items[i := merge(s.items[i])];
      assert forall j :: 0 <= j < |t| ==> key(t[j]) == key(s.items[j]);
    }
  }

  /** After a successful create with a fresh key, looking that key up returns
      the created record. */
  lemma CreateThenFind<T>(s: Store<T>, rec: T, taken: T -> bool, withId: (T, int) -> T,
                          conflict: string, hasNewKey: T -> bool, notFound: string)
    requires forall i :: 0 <= i < |s.items| ==> !hasNewKey(s.items[i])
    requires hasNewKey(withId(rec, s.last + 1))
    requires !Any(s.items, taken)
    ensures var r := Create(s, rec, taken, withId, conflict);
            Find(r.1.items, hasNewKey, notFound) == Ok(200, withId(rec, s.last + 1))
  {
    var r := Create(s, rec, taken, withId, conflict);
    assert IsFirst(r.1.items, hasNewKey, |s.items|);
  }
}
