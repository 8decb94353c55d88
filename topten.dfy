/**
 * The Top 10 page: the "available" list derived from the collection and
 * the ranking, and the drag gesture (start, over, end) that reorders the
 * ranking, moves a book into it or takes one out of it.
 *
 * The decision taken at the end of a gesture is the pure function
 * `DragEnd`; the page object holds the gesture state (`activeId`,
 * `container`) and hands the new ranking to the store.
 */
module TopTen {
  import opened Types
  import opened Seqs
  import opened Store

  /** `arrayMove` of the sortable drag-and-drop library: take the entry at `from` out, put it back at `to`. */
  function ArrayMove<T>(s: seq<T>, from: nat, to: nat): (r: seq<T>)
    requires from < |s| && to < |s|
    ensures |r| == |s| && r[to] == s[from]
    ensures RemoveAt(r, to) == RemoveAt(s, from)
  {
    RemoveInserted(RemoveAt(s, from), to, s[from]);
    Insert(RemoveAt(s, from), to, s[from])
  }

  /** A move only permutes the entries. */
  lemma ArrayMovePermutes<T>(s: seq<T>, from: nat, to: nat)
    requires from < |s| && to < |s|
    ensures multiset(ArrayMove(s, from, to)) == multiset(s)
  {
    RemoveAtMultiset(s, from);
    InsertMultiset(RemoveAt(s, from), to, s[from]);
  }

  /** Moving back from `to` to `from` undoes a move. */
  lemma ArrayMoveUndo<T>(s: seq<T>, from: nat, to: nat)
    requires from < |s| && to < |s|
    ensures ArrayMove(ArrayMove(s, from, to), to, from) == s
  {
    var m := ArrayMove(s, from, to);
    assert RemoveAt(m, to) == RemoveAt(s, from) && m[to] == s[from];
    InsertRemoved(s, from);
  }

  /** `availableBooks`: the books whose id is not ranked, in the collection's order. */
  function Available(books: seq<Book>, ranking: seq<Book>): (r: seq<Book>)
    ensures forall x :: x in r <==> x in books && !HasId(ranking, x.id)
    ensures IsSubsequence(r, books)
    ensures UniqueIds(books) ==> UniqueIds(r)
  {
    var p := (b: Book) => !HasId(ranking, b.id);
    FilterMembers(books, p);
    FilterIsSubsequence(books, p);
    SubsequenceKeepsUniqueIds(Filter(books, p), books);
    Filter(books, p)
  }

  /**
   * `handleDragEnd`'s decision: the list passed to `updateTopTen`, or
   * None when it is not called (no target, unknown book, a drop on the
   * same place, a full ranking, or a move between two unranked books).
   */
  function DragEnd(ranking: seq<Book>, books: seq<Book>, activeId: string, overId: Option<string>)
    : (r: Option<seq<Book>>)
    ensures overId.None? ==> r.None?
    ensures r.Some? ==> HasId(ranking, activeId) || (HasId(ranking, overId.value) && |ranking| < TopTenCapacity)
    ensures r.Some? ==> |r.value| <= |ranking| + 1
  {
    if overId.None? then None
    else
      match Find(ranking + Available(books, ranking), activeId)
      case None => None
      case Some(activeBook) =>
        var activeInTopTen := HasId(ranking, activeId);
        var overInTopTen := HasId(ranking, overId.value);
        if activeInTopTen && overInTopTen then
          var oldIndex := FindIndex(ranking, activeId);
          var newIndex := FindIndex(ranking, overId.value);
          if oldIndex != newIndex then Some(ArrayMove(ranking, oldIndex, newIndex)) else None
        else if !activeInTopTen && overInTopTen then
          if |ranking| < TopTenCapacity then
            Some(Insert(ranking, FindIndex(ranking, overId.value), activeBook))
          else None
        else if activeInTopTen && !overInTopTen then
          Some(WithoutId(ranking, activeId))
        else None
  }

  /** The ranking the store holds once the gesture has ended (`updateTopTen` truncates). */
  function NextRanking(ranking: seq<Book>, books: seq<Book>, activeId: string, overId: Option<string>)
    : seq<Book>
  {
    match DragEnd(ranking, books, activeId, overId)
    case None => ranking
    case Some(next) => Take(next, TopTenCapacity)
  }

  /** The store's ranking changes only through a call of `updateTopTen`, which keeps at most ten books. */
  lemma NextRankingShape(ranking: seq<Book>, books: seq<Book>, activeId: string, overId: Option<string>)
    ensures var next := NextRanking(ranking, books, activeId, overId);
            && (DragEnd(ranking, books, activeId, overId).None? ==> next == ranking)
            && (DragEnd(ranking, books, activeId, overId).Some? ==> |next| <= TopTenCapacity)
  {
  }

  /** A gesture that ends over nothing, or on a book in neither list, changes nothing. */
  lemma DragEndWithoutEffect(ranking: seq<Book>, books: seq<Book>, activeId: string, overId: Option<string>)
    requires overId.None? || (!HasId(ranking, activeId) && !HasId(Available(books, ranking), activeId))
    ensures DragEnd(ranking, books, activeId, overId).None?
    ensures NextRanking(ranking, books, activeId, overId) == ranking
  {
    HasIdConcat(ranking, Available(books, ranking), activeId);
  }

  /** Dropping a book on itself changes nothing, ranked or not. */
  lemma DropOnItself(ranking: seq<Book>, books: seq<Book>, id: string)
    ensures DragEnd(ranking, books, id, Some(id)).None?
  {
  }

  /**
   * Ranked onto ranked: the result is a permutation of the ranking whose
   * entry at the target's old index is the dragged book, and which lists
   * the other books in their old order.
   */
  lemma DragEndReorders(ranking: seq<Book>, books: seq<Book>, activeId: string, overId: string)
    requires HasId(ranking, activeId) && HasId(ranking, overId)
    requires |ranking| <= TopTenCapacity
    ensures var next := NextRanking(ranking, books, activeId, Some(overId));
            var from, to := FindIndex(ranking, activeId), FindIndex(ranking, overId);
            && |next| == |ranking|
            && multiset(next) == multiset(ranking)
            && next[to] == ranking[from]
            && next[to].id == activeId
            && RemoveAt(next, to) == RemoveAt(ranking, from)
  {
    var available := Available(books, ranking);
    HasIdConcat(ranking, available, activeId);
    assert Find(ranking + available, activeId).Some?;
    var from, to := FindIndex(ranking, activeId), FindIndex(ranking, overId);
    var result := DragEnd(ranking, books, activeId, Some(overId));
    assert result == if from != to then Some(ArrayMove(ranking, from, to)) else None;
    ArrayMovePermutes(ranking, from, to);
  }

  /** Moving the middle entry of three to the front. */
  lemma ArrayMoveExample<T>(x: T, y: T, z: T)
    ensures ArrayMove([x, y, z], 1, 0) == [y, x, z]
  {
    var s := [x, y, z];
    var removed := RemoveAt(s, 1);
    assert removed == [x, z] by {
      assert |removed| == 2 && removed[0] == x && removed[1] == z;
    }
    var next := Insert(removed, 0, y);
    assert next == [y, x, z] by {
      assert |next| == 3 && next[0] == y && next[1] == x && next[2] == z;
    }
  }

  /** For example, [X, Y, Z] with Y dropped on X becomes [Y, X, Z]. */
  lemma ReorderExample(x: Book, y: Book, z: Book, books: seq<Book>)
    requires x.id != y.id && y.id != z.id && x.id != z.id
    ensures NextRanking([x, y, z], books, y.id, Some(x.id)) == [y, x, z]
  {
    var r := [x, y, z];
    assert r[0].id == x.id && r[1].id == y.id;
    assert FindIndex(r, y.id) == 1;
    assert FindIndex(r, x.id) == 0;
    var available := Available(books, r);
    HasIdConcat(r, available, y.id);
    assert Find(r + available, y.id).Some?;
    assert DragEnd(r, books, y.id, Some(x.id)) == Some(ArrayMove(r, 1, 0));
    ArrayMoveExample(x, y, z);
  }

  /**
   * Unranked onto ranked, with room left: the dragged book is inserted at
   * the target's index, the ranking grows by one, and the other entries
   * keep their order.
   */
  lemma DragEndInserts(ranking: seq<Book>, books: seq<Book>, activeId: string, overId: string)
    requires !HasId(ranking, activeId) && HasId(Available(books, ranking), activeId)
    requires HasId(ranking, overId) && |ranking| < TopTenCapacity
    ensures var next := NextRanking(ranking, books, activeId, Some(overId));
            var at := FindIndex(ranking, overId);
            && |next| == |ranking| + 1
            && next[at].id == activeId
            && next[at] in Available(books, ranking)
            && next[at] == Find(Available(books, ranking), activeId).value
            && RemoveAt(next, at) == ranking
  {
    var available := Available(books, ranking);
    HasIdConcat(ranking, available, activeId);
    var found := Find(ranking + available, activeId);
    FindSkipsPrefix(ranking, available, activeId);
    assert found.Some?;
    var b := found.value;
    var at := FindIndex(ranking, overId);
    assert DragEnd(ranking, books, activeId, Some(overId)) == Some(Insert(ranking, at, b));
    RemoveInserted(ranking, at, b);
  }

  /**
   * An unranked book never enters a full ranking, and dropping it on
   * anything but a ranked book does nothing either.
   */
  lemma DragEndUnrankedBlocked(ranking: seq<Book>, books: seq<Book>, activeId: string, overId: Option<string>)
    requires !HasId(ranking, activeId)
    requires |ranking| >= TopTenCapacity || overId.None? || !HasId(ranking, overId.value)
    ensures DragEnd(ranking, books, activeId, overId).None?
    ensures NextRanking(ranking, books, activeId, overId) == ranking
  {
  }

  /**
   * Ranked onto anything that is not ranked: the dragged book leaves the
   * ranking, the rest keep their order, and with unique ids exactly one
   * entry is removed.
   */
  lemma DragEndRemoves(ranking: seq<Book>, books: seq<Book>, activeId: string, overId: string)
    requires HasId(ranking, activeId) && !HasId(ranking, overId)
    requires |ranking| <= TopTenCapacity
    ensures var next := NextRanking(ranking, books, activeId, Some(overId));
            && !HasId(next, activeId)
            && (forall x :: x in next <==> x in ranking && x.id != activeId)
            && IsSubsequence(next, ranking)
            && (UniqueIds(ranking) ==> next == RemoveAt(ranking, FindIndex(ranking, activeId)))
  {
    HasIdConcat(ranking, Available(books, ranking), activeId);
    var k := FindIndex(ranking, activeId);
    if UniqueIds(ranking) {
      WithoutIdRemovesOne(ranking, k);
    }
  }

  /**
   * Only ranked books are drop targets inside the ranking, so an empty
   * ranking offers none: no gesture ever adds a first book to it. This is
   * a defect of the page, whose instructions tell the user to drag books
   * from the collection to build the ranking.
   */
  lemma EmptyRankingStaysEmpty(books: seq<Book>, activeId: string, overId: Option<string>)
    ensures DragEnd([], books, activeId, overId).None?
    ensures NextRanking([], books, activeId, overId) == []
  {
    assert !HasId([], activeId);
    assert overId.Some? ==> !HasId([], overId.value);
  }

  /** Removing an entry keeps the ids unique. */
  lemma RemoveAtKeepsUniqueIds(s: seq<Book>, i: nat)
    requires i < |s| && UniqueIds(s)
    ensures UniqueIds(RemoveAt(s, i)) && !HasId(RemoveAt(s, i), s[i].id)
  {
    var r := RemoveAt(s, i);
    forall a, b | 0 <= a < b < |r| ensures r[a].id != r[b].id {
      var a', b' := if a < i then a else a + 1, if b < i then b else b + 1;
      assert r[a] == s[a'] && r[b] == s[b'];
    }
    forall j | 0 <= j < |r| ensures r[j].id != s[i].id {
      assert r[j] == s[if j < i then j else j + 1];
    }
  }

  /** Inserting a book whose id is absent keeps the ids unique. */
  lemma InsertKeepsUniqueIds(s: seq<Book>, i: nat, x: Book)
    requires i <= |s| && UniqueIds(s) && !HasId(s, x.id)
    ensures UniqueIds(Insert(s, i, x))
  {
    var r := Insert(s, i, x);
    forall a, b | 0 <= a < b < |r| ensures r[a].id != r[b].id {
      if a == i {
        assert r[b] == s[b - 1];
      } else if b == i {
        assert r[a] == s[a];
      } else {
        var a', b' := if a < i then a else a - 1, if b < i then b else b - 1;
        assert r[a] == s[a'] && r[b] == s[b'];
      }
    }
  }

  /**
   * Every gesture keeps the ranking consistent with the collection: at most
   * ten books, no id twice, each one a collection entry. The list handed to
   * `updateTopTen` is already that short, so the truncation never bites.
   */
  lemma DragEndKeepsConsistency(ranking: seq<Book>, books: seq<Book>, activeId: string, overId: Option<string>)
    requires RankingConsistent(ranking, books)
    ensures DragEnd(ranking, books, activeId, overId).Some? ==>
              && RankingConsistent(DragEnd(ranking, books, activeId, overId).value, books)
              && NextRanking(ranking, books, activeId, overId) == DragEnd(ranking, books, activeId, overId).value
    ensures RankingConsistent(NextRanking(ranking, books, activeId, overId), books)
  {
    var result := DragEnd(ranking, books, activeId, overId);
    if result.Some? {
      var next := result.value;
      var o := overId.value;
      var activeIn, overIn := HasId(ranking, activeId), HasId(ranking, o);
      if activeIn && overIn {
        var from, to := FindIndex(ranking, activeId), FindIndex(ranking, o);
        assert next == Insert(RemoveAt(ranking, from), to, ranking[from]);
        ArrayMovePermutes(ranking, from, to);
        RemoveAtKeepsUniqueIds(ranking, from);
        InsertKeepsUniqueIds(RemoveAt(ranking, from), to, ranking[from]);
        forall i | 0 <= i < |next| ensures next[i] in books {
          assert next[i] in multiset(next);
          assert next[i] in ranking;
        }
      } else if !activeIn && overIn {
        var available := Available(books, ranking);
        HasIdConcat(ranking, available, activeId);
        var b := Find(ranking + available, activeId).value;
        var at := FindIndex(ranking, o);
        assert next == Insert(ranking, at, b);
        InsertKeepsUniqueIds(ranking, at, b);
        forall i | 0 <= i < |next| ensures next[i] in books {
          if i != at {
            assert next[i] == ranking[if i < at then i else i - 1];
          }
        }
      } else {
        assert next == WithoutId(ranking, activeId);
        forall i | 0 <= i < |next| ensures next[i] in books {
          assert next[i] in ranking;
        }
      }
    }
  }

  /** Which list a drag is over: 'top-ten' or 'available'. */
  datatype Container = TopTenList | AvailableList

  /** The list an id belongs to: the ranking when it holds the id, otherwise the available list. */
  function ContainerOf(ranking: seq<Book>, id: string): (c: Container)
    ensures c == TopTenList <==> exists b :: b in ranking && b.id == id
  {
    if HasId(ranking, id) then TopTenList else AvailableList
  }

  class TopTenPage {
    const store: BookStore
    var activeId: Option<string>
    var container: Container

    /** The page as first shown: nothing dragged, container 'top-ten'. */
    constructor (store: BookStore)
      ensures this.store == store
      ensures activeId == None && container == TopTenList
    {
      this.store := store;
      activeId := None;
      container := TopTenList;
    }

    /** `handleDragStart`: remember the dragged id and the list it started in. */
    method HandleDragStart(active: string)
      modifies this
      ensures activeId == Some(active)
      ensures container == ContainerOf(store.topTenBooks, active)
      ensures container == TopTenList <==> HasId(store.topTenBooks, active)
    {
      activeId := Some(active);
      container := ContainerOf(store.topTenBooks, active);
    }

    /** `handleDragOver`: only the container changes, and only when the drag crosses lists. */
    method HandleDragOver(active: string, over: Option<string>)
      modifies this`container
      ensures over.Some? && HasId(store.topTenBooks, active) != HasId(store.topTenBooks, over.value)
              ==> container == ContainerOf(store.topTenBooks, over.value)
      ensures over.None? || HasId(store.topTenBooks, active) == HasId(store.topTenBooks, over.value)
              ==> container == old(container)
    {
      if over.None? {
        return;
      }
      var isActiveInTopTen := HasId(store.topTenBooks, active);
      var isOverInTopTen := HasId(store.topTenBooks, over.value);
      if isActiveInTopTen != isOverInTopTen {
        container := ContainerOf(store.topTenBooks, over.value);
      }
    }

    /** `handleDragEnd`: apply the gesture's decision to the store and clear the dragged id. */
    method HandleDragEnd(active: string, over: Option<string>)
      modifies this`activeId, store
      ensures activeId == None
      ensures store.books == old(store.books)
      ensures store.topTenBooks == NextRanking(old(store.topTenBooks), old(store.books), active, over)
      ensures old(store.Valid()) ==> store.Valid()
    {
      var next := DragEnd(store.topTenBooks, store.books, active, over);
      if next.Some? {
        if store.Valid() {
          DragEndKeepsConsistency(store.topTenBooks, store.books, active, over);
        }
        store.UpdateTopTen(next.value);
      }
      activeId := None;
    }
  }
}
