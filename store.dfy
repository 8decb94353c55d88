/**
 * The book store behind the whole application: the collection `books`
 * and the ranking `topTenBooks`, with the four mutators `addBook`,
 * `updateBook`, `deleteBook` and `updateTopTen`.
 *
 * The new value of each field is a pure function of the old values (the
 * spread/map/filter/slice of the React store); the class overwrites its two
 * fields with them, as the state setters do.
 */
module Store {
  import opened Types
  import opened Seqs

  /** The most books the ranking may hold. */
  const TopTenCapacity: nat := 10

  /**
   * A ranking fits a collection when it holds at most ten books, no id
   * twice, and every ranked entry is an entry of the collection.
   */
  predicate RankingConsistent(ranking: seq<Book>, books: seq<Book>)
  {
    && |ranking| <= TopTenCapacity
    && UniqueIds(ranking)
    && forall i :: 0 <= i < |ranking| ==> ranking[i] in books
  }

  /** The store's invariant: unique ids in the collection, and a consistent ranking. */
  predicate StoreInvariant(books: seq<Book>, ranking: seq<Book>)
  {
    UniqueIds(books) && RankingConsistent(ranking, books)
  }

  /** A ranking consistent with a collection is a subset of it by id as well. */
  lemma RankedIdsAreBookIds(ranking: seq<Book>, books: seq<Book>, id: string)
    requires RankingConsistent(ranking, books)
    ensures HasId(ranking, id) ==> HasId(books, id)
  {
    if HasId(ranking, id) {
      var i :| 0 <= i < |ranking| && ranking[i].id == id;
      var j :| 0 <= j < |books| && books[j] == ranking[i];
    }
  }

  /** The form data a book was created from (the `Omit<Book, 'id' | 'dateAdded'>` view). */
  function InputOf(b: Book): BookInput
  {
    BookInput(b.title, b.author, b.category, b.rating, b.coverUrl)
  }

  /** `{ ...book, id, dateAdded }`: a new record from form data, an id and a timestamp. */
  function NewBook(input: BookInput, id: string, dateAdded: string): (b: Book)
    ensures InputOf(b) == input
    ensures b.id == id && b.dateAdded == dateAdded
  {
    Book(id, input.title, input.author, input.category, input.rating, dateAdded, input.coverUrl)
  }

  /** `s.filter(b => b.id !== id)` */
  function WithoutId(s: seq<Book>, id: string): (r: seq<Book>)
    ensures !HasId(r, id)
    ensures forall x :: x in r <==> x in s && x.id != id
    ensures IsSubsequence(r, s)
    ensures UniqueIds(s) ==> UniqueIds(r)
  {
    var p := (b: Book) => b.id != id;
    FilterMembers(s, p);
    FilterIsSubsequence(s, p);
    SubsequenceKeepsUniqueIds(Filter(s, p), s);
    Filter(s, p)
  }

  /** Deleting an id that no entry carries changes nothing. */
  lemma WithoutIdAbsent(s: seq<Book>, id: string)
    requires !HasId(s, id)
    ensures WithoutId(s, id) == s
  {
    FilterAllPass(s, (b: Book) => b.id != id);
  }

  /** In a list with unique ids, dropping an entry's id drops exactly that one entry. */
  lemma WithoutIdRemovesOne(s: seq<Book>, k: nat)
    requires UniqueIds(s) && k < |s|
    ensures WithoutId(s, s[k].id) == RemoveAt(s, k)
  {
    var id := s[k].id;
    var p := (b: Book) => b.id != id;
    assert WithoutId(s, id) == Filter(s, p);
    forall i | 0 <= i < |s| && i != k ensures p(s[i]) {
      assert s[i].id != s[k].id;
    }
    FilterRemovesOne(s, p, k);
  }

  /** Deleting entries cannot create a repeated id. */
  lemma {:induction false} SubsequenceKeepsUniqueIds(a: seq<Book>, b: seq<Book>)
    requires IsSubsequence(a, b)
    ensures UniqueIds(b) ==> UniqueIds(a)
  {
    if a != [] && UniqueIds(b) {
      assert UniqueIds(b[1..]) by {
        forall i, j | 0 <= i < j < |b[1..]| ensures b[1..][i].id != b[1..][j].id {
          assert b[1..][i] == b[i + 1] && b[1..][j] == b[j + 1];
        }
      }
      if a[0] == b[0] && IsSubsequence(a[1..], b[1..]) {
        SubsequenceKeepsUniqueIds(a[1..], b[1..]);
        SubsequenceMembers(a[1..], b[1..]);
        forall i, j | 0 <= i < j < |a| ensures a[i].id != a[j].id {
          if i == 0 {
            assert a[j] == a[1..][j - 1];
            assert a[j] in b[1..];
            var k :| 0 <= k < |b[1..]| && b[1..][k] == a[j];
            assert b[k + 1] == a[j];
          } else {
            assert a[i] == a[1..][i - 1] && a[j] == a[1..][j - 1];
          }
        }
      } else {
        SubsequenceKeepsUniqueIds(a, b[1..]);
      }
    }
  }

  /** `addBook` keeps the invariant when the new id is fresh. */
  lemma AddKeepsInvariant(books: seq<Book>, ranking: seq<Book>, b: Book)
    requires StoreInvariant(books, ranking)
    requires !HasId(books, b.id)
    ensures StoreInvariant(books + [b], ranking)
  {
    var nb := books + [b];
    forall i, j | 0 <= i < j < |nb| ensures nb[i].id != nb[j].id {
      if j == |books| {
        assert books[i].id != b.id;
      }
    }
  }

  /** `updateBook` keeps the invariant; the ranking is replaced only when it holds the id. */
  lemma UpdateKeepsInvariant(books: seq<Book>, ranking: seq<Book>, u: Book)
    requires StoreInvariant(books, ranking)
    ensures StoreInvariant(ReplaceById(books, u),
                           if HasId(ranking, u.id) then ReplaceById(ranking, u) else ranking)
  {
    var nb := ReplaceById(books, u);
    ReplaceByIdKeepsIds(books, u);
    ReplaceByIdKeepsIds(ranking, u);
    var nr := if HasId(ranking, u.id) then ReplaceById(ranking, u) else ranking;
    forall i | 0 <= i < |nr| ensures nr[i] in nb {
      var k :| 0 <= k < |books| && books[k] == ranking[i];
      if ranking[i].id == u.id {
        assert nr[i] == u && nb[k] == u;
      } else {
        assert nr[i] == ranking[i] && nb[k] == books[k];
      }
    }
  }

  /** `deleteBook` keeps the invariant. */
  lemma DeleteKeepsInvariant(books: seq<Book>, ranking: seq<Book>, id: string)
    requires StoreInvariant(books, ranking)
    ensures StoreInvariant(WithoutId(books, id), WithoutId(ranking, id))
  {
    var nb, nr := WithoutId(books, id), WithoutId(ranking, id);
    forall i | 0 <= i < |nr| ensures nr[i] in nb {
      assert nr[i] in ranking;
    }
  }

  /** `updateTopTen` keeps the invariant when it is fed a duplicate-free list of collection entries. */
  lemma UpdateTopTenKeepsInvariant(books: seq<Book>, xs: seq<Book>)
    requires UniqueIds(books) && UniqueIds(xs)
    requires forall i :: 0 <= i < |xs| ==> xs[i] in books
    ensures StoreInvariant(books, Take(xs, TopTenCapacity))
  {
    var t := Take(xs, TopTenCapacity);
    forall i | 0 <= i < |t| ensures t[i] in books {
      assert t[i] == xs[i];
    }
  }

  class BookStore {
    var books: seq<Book>
    var topTenBooks: seq<Book>

    ghost predicate Valid()
      reads this
    {
      StoreInvariant(books, topTenBooks)
    }

    /** A store started with nothing saved holds two empty lists. */
    constructor ()
      ensures books == [] && topTenBooks == []
      ensures Valid()
    {
      books := [];
      topTenBooks := [];
    }

    /** `addBook`: append the new record; `id` stands for the generated UUID. */
    method AddBook(input: BookInput, id: string, dateAdded: string)
      requires !HasId(books, id)
      modifies this
      ensures books == old(books) + [NewBook(input, id, dateAdded)]
      ensures topTenBooks == old(topTenBooks)
      ensures old(Valid()) ==> Valid()
    {
      if Valid() {
        AddKeepsInvariant(books, topTenBooks, NewBook(input, id, dateAdded));
      }
      books := books + [NewBook(input, id, dateAdded)];
    }

    /** `updateBook`: replace by id in the collection, and in the ranking when it holds the id. */
    method UpdateBook(u: Book)
      modifies this
      ensures books == ReplaceById(old(books), u)
      ensures topTenBooks == if HasId(old(topTenBooks), u.id)
                             then ReplaceById(old(topTenBooks), u)
                             else old(topTenBooks)
      ensures old(Valid()) ==> Valid()
    {
      if Valid() {
        UpdateKeepsInvariant(books, topTenBooks, u);
      }
      books := ReplaceById(books, u);
      if HasId(topTenBooks, u.id) {
        topTenBooks := ReplaceById(topTenBooks, u);
      }
    }

    /** `deleteBook`: drop the id from both lists. */
    method DeleteBook(id: string)
      modifies this
      ensures books == WithoutId(old(books), id)
      ensures topTenBooks == WithoutId(old(topTenBooks), id)
      ensures !HasId(books, id) && !HasId(topTenBooks, id)
      ensures old(Valid()) ==> Valid()
    {
      if Valid() {
        DeleteKeepsInvariant(books, topTenBooks, id);
      }
      books := WithoutId(books, id);
      topTenBooks := WithoutId(topTenBooks, id);
    }

    /** `updateTopTen`: keep only the first ten entries of the new ranking. */
    method UpdateTopTen(xs: seq<Book>)
      modifies this
      ensures topTenBooks == Take(xs, TopTenCapacity)
      ensures books == old(books)
      ensures |topTenBooks| <= TopTenCapacity
      ensures (old(UniqueIds(books)) && UniqueIds(xs) &&
               forall i :: 0 <= i < |xs| ==> xs[i] in old(books)) ==> Valid()
    {
      if UniqueIds(books) && UniqueIds(xs) && (forall i :: 0 <= i < |xs| ==> xs[i] in books) {
        UpdateTopTenKeepsInvariant(books, xs);
      }
      topTenBooks := Take(xs, TopTenCapacity);
    }
  }
}
