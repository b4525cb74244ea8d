/** The pattern shared by the two relation files: a module-level array of
    `{course_id, <other>_id}` rows with duplicate rejection on add, filters by
    either side, and removal of the first matching row. */
module RelationStore {
  import opened ApiResult
  import opened Seqs

  /** One row: a course and the id on the other side (a program or a classroom). */
  datatype Link = Link(courseId: int, otherId: int)

  function Is(c: int, o: int): Link -> bool { (l: Link) => l.courseId == c && l.otherId == o }
  function OfCourse(c: int): Link -> bool { (l: Link) => l.courseId == c }
  function OfOther(o: int): Link -> bool { (l: Link) => l.otherId == o }
  function NotOfCourse(c: int): Link -> bool { (l: Link) => l.courseId != c }

  /** POST: reject an existing pair with 409, otherwise append it. */
  function Add(rels: seq<Link>, c: int, o: int, conflict: string): (r: (Result<Link>, seq<Link>))
    ensures Link(c, o) in rels ==> r == (Err(409, conflict), rels)
    ensures Link(c, o) !in rels ==> r == (Ok(201, Link(c, o)), rels + [Link(c, o)])
  {
    if FindIndex(rels, Is(c, o)).Some? then (Err(409, conflict), rels)
    else
      assert forall i :: 0 <= i < |rels| ==> !Is(c, o)(rels[i]);
      (Ok(201, Link(c, o)), rels + [Link(c, o)])
  }

  /** The rows of course `c`, in store order. */
  function ByCourse(rels: seq<Link>, c: int): (r: seq<Link>)
    ensures forall i :: 0 <= i < |r| ==> r[i] in rels && r[i].courseId == c
    ensures forall i :: 0 <= i < |rels| && rels[i].courseId == c ==> rels[i] in r
    ensures KeepsInOrder(rels, OfCourse(c), r)
  {
    FilterInOrder(rels, OfCourse(c));
    Filter(rels, OfCourse(c))
  }

  /** The rows whose other side is `o`, in store order. */
  function ByOther(rels: seq<Link>, o: int): (r: seq<Link>)
    ensures forall i :: 0 <= i < |r| ==> r[i] in rels && r[i].otherId == o
    ensures forall i :: 0 <= i < |rels| && rels[i].otherId == o ==> rels[i] in r
    ensures KeepsInOrder(rels, OfOther(o), r)
  {
    FilterInOrder(rels, OfOther(o));
    Filter(rels, OfOther(o))
  }

  /** DELETE: splice out the first matching row and answer 204 with the
      route's `removed` message, or reject with 404. */
  function Remove(rels: seq<Link>, c: int, o: int, notFound: string, removed: string)
    : (r: (Result<string>, seq<Link>))
    ensures Link(c, o) !in rels ==> r == (Err(404, notFound), rels)
    ensures forall i :: IsFirst(rels, Is(c, o), i) ==> r == (Ok(204, removed), RemoveAt(rels, i))
  {
    match FindIndex(rels, Is(c, o))
    case None =>
      assert forall i :: 0 <= i < |rels| ==> rels[i] != Link(c, o) by {
        forall i | 0 <= i < |rels| ensures rels[i] != Link(c, o) { assert !Is(c, o)(rels[i]); }
      }
      (Err(404, notFound), rels)
    case Some(i) =>
      assert forall j :: IsFirst(rels, Is(c, o), j) ==> j == i;
      (Ok(204, removed), RemoveAt(rels, i))
  }

  /** Both filters keep store order: they grow at the end exactly when the
      appended row matches. */
  lemma FiltersKeepOrder(rels: seq<Link>, l: Link, c: int, o: int)
    ensures ByCourse(rels + [l], c) == ByCourse(rels, c) + (if l.courseId == c then [l] else [])
    ensures ByOther(rels + [l], o) == ByOther(rels, o) + (if l.otherId == o then [l] else [])
  {
    FilterSnoc(rels, l, OfCourse(c));
    FilterSnoc(rels, l, OfOther(o));
  }

  /** Add keeps the store free of duplicate pairs. */
  lemma AddKeepsDistinct(rels: seq<Link>, c: int, o: int, conflict: string)
    requires Distinct(rels)
    ensures Distinct(Add(rels, c, o, conflict).1)
  {
  }

  /** The row `Link(c, o)` is the first row matching `(c, o)` wherever it occurs. */
  lemma IndexIsFirst(rels: seq<Link>, c: int, o: int, i: int)
    requires 0 <= i < |rels| && rels[i] == Link(c, o)
    requires forall j :: 0 <= j < i ==> rels[j] != Link(c, o)
    ensures IsFirst(rels, Is(c, o), i)
  {
  }

  /** On a store without duplicates, a successful remove leaves exactly the
      other rows, so the pair is gone. */
  lemma RemoveUnderDistinct(rels: seq<Link>, c: int, o: int, notFound: string, removed: string)
    requires Distinct(rels)
    ensures var r := Remove(rels, c, o, notFound, removed);
            && (r.0.Ok? <==> Link(c, o) in rels)
            && Distinct(r.1)
            && Link(c, o) !in r.1
            && forall x :: x in r.1 <==> x in rels && x != Link(c, o)
  {
    if Link(c, o) in rels {
      var i :| 0 <= i < |rels| && rels[i] == Link(c, o);
      IndexIsFirst(rels, c, o, i);
      RemoveAtDistinct(rels, i);
    }
  }

  /** Adding a fresh pair and removing it again restores the store. */
  lemma AddThenRemove(rels: seq<Link>, c: int, o: int, conflict: string, notFound: string, removed: string)
    requires Link(c, o) !in rels
    ensures var a := Add(rels, c, o, conflict);
            a.0.Ok? && Remove(a.1, c, o, notFound, removed) == (Ok(204, removed), rels)
  {
    var a := Add(rels, c, o, conflict).1;
    assert a[|rels|] == Link(c, o);
    IndexIsFirst(a, c, o, |rels|);
    assert RemoveAt(a, |rels|) == rels;
  }

  /** Removing a row of course `c` leaves the rows of every other course as
      they were. */
  lemma RemoveKeepsOtherCourses(rels: seq<Link>, c: int, o: int, notFound: string, removed: string)
    ensures Filter(Remove(rels, c, o, notFound, removed).1, NotOfCourse(c)) == Filter(rels, NotOfCourse(c))
  {
    var k := FindIndex(rels, Is(c, o));
    if k.Some? {
      FilterRemoveAt(rels, k.value, NotOfCourse(c));
    }
  }

  /** Adding a row of course `c` leaves the rows of every other course as
      they were. */
  lemma AddKeepsOtherCourses(rels: seq<Link>, c: int, o: int, conflict: string)
    ensures Filter(Add(rels, c, o, conflict).1, NotOfCourse(c)) == Filter(rels, NotOfCourse(c))
  {
    FilterSnoc(rels, Link(c, o), NotOfCourse(c));
  }
}
