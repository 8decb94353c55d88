/**
 * The record types of the book tracker: a book, its category and the
 * form data a new book is created from, plus the id lookups
 * (`some`, `findIndex`, `find`, `map`) that every other module uses.
 */
module Types {

  datatype Option<+T> = None | Some(value: T)

  /** The six fixed categories ('Sci-fi', 'Erotic', ..., 'History'). */
  datatype BookCategory = SciFi | Erotic | Adventure | Horror | Science | History

  /**
   * A book record. The rating is kept in half points (0..20 stands for
   * 0..10 in steps of 0.5); the store itself never checks the range.
   */
  datatype Book = Book(
    id: string,
    title: string,
    author: string,
    category: BookCategory,
    rating: int,
    dateAdded: string,
    coverUrl: Option<string>)

  /** A book without its `id` and `dateAdded` (the argument of `addBook`). */
  datatype BookInput = BookInput(
    title: string,
    author: string,
    category: BookCategory,
    rating: int,
    coverUrl: Option<string>)

  /** `s.some(b => b.id === id)` */
  predicate HasId(s: seq<Book>, id: string)
  {
    exists i | 0 <= i < |s| :: s[i].id == id
  }

  /** `some` by position is the same as `some` by membership. */
  lemma HasIdMeans(s: seq<Book>, id: string)
    ensures HasId(s, id) <==> exists b :: b in s && b.id == id
  {
    if HasId(s, id) {
      var i :| 0 <= i < |s| && s[i].id == id;
      assert s[i] in s;
    }
  }

  /** An id occurs in a concatenation exactly when it occurs in one of the parts. */
  lemma HasIdConcat(a: seq<Book>, b: seq<Book>, id: string)
    ensures HasId(a + b, id) <==> HasId(a, id) || HasId(b, id)
  {
    if HasId(a + b, id) {
      var i :| 0 <= i < |a + b| && (a + b)[i].id == id;
      if i >= |a| {
        assert b[i - |a|].id == id;
      }
    }
    if HasId(b, id) {
      var i :| 0 <= i < |b| && b[i].id == id;
      assert (a + b)[i + |a|].id == id;
    }
    if HasId(a, id) {
      var i :| 0 <= i < |a| && a[i].id == id;
      assert (a + b)[i].id == id;
    }
  }

  /** No two entries of `s` share an id. */
  predicate UniqueIds(s: seq<Book>)
  {
    forall i, j | 0 <= i < j < |s| :: s[i].id != s[j].id
  }

  /** `s.findIndex(b => b.id === id)`: the first index carrying `id`, or -1. */
  function FindIndex(s: seq<Book>, id: string): (r: int)
    ensures -1 <= r < |s|
    ensures r == -1 <==> !HasId(s, id)
    ensures r >= 0 ==> s[r].id == id && forall j :: 0 <= j < r ==> s[j].id != id
  {
    if s == [] then -1
    else if s[0].id == id then 0
    else
      var k := FindIndex(s[1..], id);
      assert HasId(s, id) ==> HasId(s[1..], id) by {
        if HasId(s, id) {
          var i :| 0 <= i < |s| && s[i].id == id;
          assert s[1..][i - 1].id == id;
        }
      }
      if k == -1 then -1 else k + 1
  }

  /** `s.find(b => b.id === id)`: the first entry carrying `id`, if any. */
  function Find(s: seq<Book>, id: string): (r: Option<Book>)
    ensures r.Some? <==> HasId(s, id)
    ensures r.Some? ==> r.value in s && r.value.id == id
    ensures r.Some? ==> r.value == s[FindIndex(s, id)]
  {
    var k := FindIndex(s, id);
    if k == -1 then None else Some(s[k])
  }

  /** Searching a concatenation whose first part lacks the id finds what searching the second part finds. */
  lemma FindSkipsPrefix(a: seq<Book>, b: seq<Book>, id: string)
    requires !HasId(a, id)
    ensures Find(a + b, id) == Find(b, id)
  {
    HasIdConcat(a, b, id);
    if HasId(b, id) {
      var r, k := FindIndex(a + b, id), FindIndex(b, id);
      assert (a + b)[|a| + k].id == id;
      assert forall j :: 0 <= j < |a| ==> (a + b)[j].id != id;
      assert b[r - |a|].id == id;
    }
  }

  /** `s.map(b => b.id === u.id ? u : b)`: every entry with `u`'s id becomes `u`. */
  function ReplaceById(s: seq<Book>, u: Book): (r: seq<Book>)
    ensures |r| == |s|
    ensures forall i :: 0 <= i < |s| && s[i].id == u.id ==> r[i] == u
    ensures forall i :: 0 <= i < |s| && s[i].id != u.id ==> r[i] == s[i]
  {
    if s == [] then []
    else [if s[0].id == u.id then u else s[0]] + ReplaceById(s[1..], u)
  }

  /** Replacing by id never changes the id at any position. */
  lemma ReplaceByIdKeepsIds(s: seq<Book>, u: Book)
    ensures forall i :: 0 <= i < |s| ==> ReplaceById(s, u)[i].id == s[i].id
    ensures UniqueIds(s) ==> UniqueIds(ReplaceById(s, u))
    ensures forall id :: HasId(ReplaceById(s, u), id) <==> HasId(s, id)
  {
    var r := ReplaceById(s, u);
    forall id ensures HasId(r, id) <==> HasId(s, id) {
      if HasId(r, id) {
        var i :| 0 <= i < |r| && r[i].id == id;
        assert s[i].id == id;
      }
      if HasId(s, id) {
        var i :| 0 <= i < |s| && s[i].id == id;
        assert r[i].id == id;
      }
    }
  }

  /** An update whose id is absent leaves the sequence as it was. */
  lemma ReplaceAbsentIsIdentity(s: seq<Book>, u: Book)
    requires !HasId(s, u.id)
    ensures ReplaceById(s, u) == s
  {
    var r := ReplaceById(s, u);
    forall i | 0 <= i < |s| ensures r[i] == s[i] {
      assert s[i].id != u.id;
    }
  }
}
