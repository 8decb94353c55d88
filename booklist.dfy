/**
 * The collection view's filter: a search over title and author, a set of
 * selected categories and a minimum rating, with the two state updates
 * `toggleCategory` and `clearFilters` on those settings.
 */
module BookList {
  import opened Types
  import opened Seqs

  /** `toLowerCase` on one character, for the ASCII letters only. */
  function ToLowerChar(c: char): (r: char)
    ensures 'A' <= c <= 'Z' ==> r as int == c as int + 32
    ensures !('A' <= c <= 'Z') ==> r == c
    ensures !('A' <= r <= 'Z')
  {
    if 'A' <= c <= 'Z' then (c as int + 32) as char else c
  }

  /** `toLowerCase` on a string, character by character. */
  function ToLower(s: string): (r: string)
    ensures |r| == |s|
    ensures forall i :: 0 <= i < |s| ==> r[i] == ToLowerChar(s[i])
  {
    if s == [] then [] else [ToLowerChar(s[0])] + ToLower(s[1..])
  }

  /** `needle` occurs in `hay` starting at index `k`. */
  ghost predicate OccursAt(hay: string, needle: string, k: int)
  {
    0 <= k && k + |needle| <= |hay| && forall i :: 0 <= i < |needle| ==> hay[k + i] == needle[i]
  }

  /** `needle` occurs somewhere in `hay`. */
  ghost predicate Occurs(hay: string, needle: string)
  {
    exists k :: OccursAt(hay, needle, k)
  }

  /** `hay.includes(needle)`: try every start position from the left. */
  predicate Includes(hay: string, needle: string)
    ensures Includes(hay, needle) ==> |needle| <= |hay|
    ensures needle == [] ==> Includes(hay, needle)
  {
    if |needle| > |hay| then false
    else if hay[..|needle|] == needle then true
    else Includes(hay[1..], needle)
  }

  /** An occurrence at index 0 is the same thing as a matching prefix. */
  lemma OccursAtStart(hay: string, needle: string)
    requires |needle| <= |hay|
    ensures OccursAt(hay, needle, 0) <==> hay[..|needle|] == needle
  {
    if OccursAt(hay, needle, 0) {
      forall i | 0 <= i < |needle| ensures hay[..|needle|][i] == needle[i] {
        assert hay[0 + i] == needle[i];
      }
    }
    if hay[..|needle|] == needle {
      forall i | 0 <= i < |needle| ensures hay[0 + i] == needle[i] {
        assert hay[..|needle|][i] == hay[i];
      }
    }
  }

  /** `Includes` holds exactly when the needle occurs somewhere in the haystack. */
  lemma {:induction false} IncludesIff(hay: string, needle: string)
    ensures Includes(hay, needle) <==> Occurs(hay, needle)
  {
    if |needle| > |hay| {
      assert forall k :: !OccursAt(hay, needle, k);
    } else {
      OccursAtStart(hay, needle);
      if hay[..|needle|] != needle {
        IncludesIff(hay[1..], needle);
        forall k | OccursAt(hay, needle, k) ensures OccursAt(hay[1..], needle, k - 1) {
          forall i | 0 <= i < |needle| ensures hay[1..][k - 1 + i] == needle[i] {
            assert hay[k + i] == needle[i];
          }
        }
        forall k | OccursAt(hay[1..], needle, k) ensures OccursAt(hay, needle, k + 1) {
          forall i | 0 <= i < |needle| ensures hay[k + 1 + i] == needle[i] {
            assert hay[1..][k + i] == needle[i];
          }
        }
      }
    }
  }

  /** The search predicate: an empty term, or the term within the title or the author, ignoring case. */
  predicate MatchesSearch(b: Book, searchTerm: string)
    ensures searchTerm == "" ==> MatchesSearch(b, searchTerm)
    ensures MatchesSearch(b, searchTerm) ==>
              searchTerm == "" || |searchTerm| <= |b.title| || |searchTerm| <= |b.author|
  {
    || searchTerm == ""
    || Includes(ToLower(b.title), ToLower(searchTerm))
    || Includes(ToLower(b.author), ToLower(searchTerm))
  }

  /** The category predicate: no category selected, or the book's category is selected. */
  predicate MatchesCategory(b: Book, selectedCategories: seq<BookCategory>)
    ensures selectedCategories == [] ==> MatchesCategory(b, selectedCategories)
    ensures MatchesCategory(b, selectedCategories) && selectedCategories != [] ==>
              exists i :: 0 <= i < |selectedCategories| && selectedCategories[i] == b.category
  {
    |selectedCategories| == 0 || b.category in selectedCategories
  }

  /** The rating predicate: at least the minimum (both in half points). */
  predicate MatchesRating(b: Book, ratingFilter: int)
    ensures ratingFilter <= 0 <= b.rating ==> MatchesRating(b, ratingFilter)
    ensures MatchesRating(b, ratingFilter) ==> ratingFilter <= b.rating
  {
    b.rating >= ratingFilter
  }

  /** A book is shown when it passes all three tests. */
  predicate Matches(b: Book, searchTerm: string, selectedCategories: seq<BookCategory>, ratingFilter: int)
    ensures Matches(b, searchTerm, selectedCategories, ratingFilter) ==> b.rating >= ratingFilter
    ensures searchTerm == "" && selectedCategories == [] ==>
              (Matches(b, searchTerm, selectedCategories, ratingFilter) <==> b.rating >= ratingFilter)
  {
    MatchesSearch(b, searchTerm) && MatchesCategory(b, selectedCategories) && MatchesRating(b, ratingFilter)
  }

  /** `filteredBooks`: the books passing all three predicates, in the collection's order. */
  function FilteredBooks(books: seq<Book>, searchTerm: string, selectedCategories: seq<BookCategory>,
                         ratingFilter: int): (r: seq<Book>)
    ensures forall x :: x in r <==> x in books && Matches(x, searchTerm, selectedCategories, ratingFilter)
    ensures forall i :: 0 <= i < |r| ==> Matches(r[i], searchTerm, selectedCategories, ratingFilter)
    ensures IsSubsequence(r, books)
  {
    var p := (b: Book) => Matches(b, searchTerm, selectedCategories, ratingFilter);
    FilterMembers(books, p);
    FilterIsSubsequence(books, p);
    Filter(books, p)
  }

  /** A non-empty term keeps a book exactly when it occurs, lower-cased, in the lower-cased title or author. */
  lemma SearchMeaning(b: Book, searchTerm: string)
    ensures searchTerm == "" ==> MatchesSearch(b, searchTerm)
    ensures searchTerm != "" ==>
              (MatchesSearch(b, searchTerm) <==>
                 Occurs(ToLower(b.title), ToLower(searchTerm)) || Occurs(ToLower(b.author), ToLower(searchTerm)))
  {
    IncludesIff(ToLower(b.title), ToLower(searchTerm));
    IncludesIff(ToLower(b.author), ToLower(searchTerm));
  }

  /** The default settings (no term, no category, minimum 0) show every book of non-negative rating, in order. */
  lemma DefaultFiltersShowAll(books: seq<Book>)
    requires forall i :: 0 <= i < |books| ==> books[i].rating >= 0
    ensures FilteredBooks(books, "", [], 0) == books
  {
    var p := (b: Book) => Matches(b, "", [], 0);
    FilterAllPass(books, p);
  }

  /** For example, ratings 8 and 3 (16 and 6 half points) with minimum 5 keep only the first book. */
  lemma RatingExample(a: Book, b: Book)
    requires a.rating == 16 && b.rating == 6
    ensures FilteredBooks([a, b], "", [], 10) == [a]
  {
    var r := FilteredBooks([a, b], "", [], 10);
    assert a in r && b !in r;
    var p := (x: Book) => Matches(x, "", [], 10);
    assert r == Filter([a, b], p);
    assert [a, b][1..] == [b];
    assert Filter([b], p) == [];
  }

  /** For example, the term "dune" finds the title "Dune". */
  lemma SearchExample(b: Book)
    requires b.title == "Dune"
    ensures MatchesSearch(b, "dune")
  {
    assert ToLower("Dune") == "dune";
  }

  /** `toggleCategory`'s new list: drop the category if selected, append it otherwise. */
  function Toggled(selected: seq<BookCategory>, c: BookCategory): (r: seq<BookCategory>)
    ensures c in r <==> c !in selected
    ensures forall d :: d != c ==> (d in r <==> d in selected)
  {
    if c in selected then
      var p := (d: BookCategory) => d != c;
      FilterMembers(selected, p);
      Filter(selected, p)
    else selected + [c]
  }

  /** Toggling twice restores membership, and restores the list itself when the category was absent. */
  lemma ToggleTwice(selected: seq<BookCategory>, c: BookCategory)
    ensures forall d :: d in Toggled(Toggled(selected, c), c) <==> d in selected
    ensures c !in selected ==> Toggled(Toggled(selected, c), c) == selected
  {
    if c !in selected {
      var s := selected + [c];
      var p := (d: BookCategory) => d != c;
      forall i | 0 <= i < |s| && i != |selected| ensures p(s[i]) {
        assert s[i] == selected[i];
      }
      FilterRemovesOne(s, p, |selected|);
      assert RemoveAt(s, |selected|) == selected;
    }
  }

  /** The filter settings of the collection view. */
  class FilterSettings {
    var searchTerm: string
    var selectedCategories: seq<BookCategory>
    var ratingFilter: int

    predicate IsDefault()
      reads this
    {
      searchTerm == "" && selectedCategories == [] && ratingFilter == 0
    }

    /** The settings as first shown: no term, no category, minimum 0. */
    constructor ()
      ensures IsDefault()
    {
      searchTerm := "";
      selectedCategories := [];
      ratingFilter := 0;
    }

    /** `toggleCategory`: flip one category's selection, leaving the others as they were. */
    method ToggleCategory(c: BookCategory)
      modifies this`selectedCategories
      ensures selectedCategories == Toggled(old(selectedCategories), c)
      ensures c in selectedCategories <==> c !in old(selectedCategories)
    {
      selectedCategories := Toggled(selectedCategories, c);
    }

    /** `clearFilters`: back to the default settings. */
    method ClearFilters()
      modifies this
      ensures IsDefault()
    {
      searchTerm := "";
      selectedCategories := [];
      ratingFilter := 0;
    }
  }
}
