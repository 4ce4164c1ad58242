/**
 * The search box of the library page: a book stays in the list when the lowercased
 * filter text occurs in its lowercased title, author or one of its tag names.
 */
module LibraryPage {

  import opened Wrappers
  import opened Ordering
  import Text

  /** A book as the page receives it from the books endpoint. */
  datatype BookCard = BookCard(id: nat, title: string, author: Option<string>, tagNames: seq<string>)

  /** `tags.some(tag => tag.name.toLowerCase().includes(q))` */
  predicate SomeTagIncludes(tagNames: seq<string>, q: string)
  {
    exists i :: 0 <= i < |tagNames| && Text.Includes(Text.Lower(tagNames[i]), q)
  }

  /** The search predicate, with `q` the lowercased filter; a null author never matches. */
  predicate Matches(b: BookCard, filter: string)
  {
    var q := Text.Lower(filter);
    Text.Includes(Text.Lower(b.title), q) ||
    (b.author.Some? && Text.Includes(Text.Lower(b.author.value), q)) ||
    SomeTagIncludes(b.tagNames, q)
  }

  function Matcher(filter: string): BookCard -> bool
  {
    (b: BookCard) => Matches(b, filter)
  }

  /** `books.filter(book => …)`: the matching books, in their order. */
  function FilteredBooks(books: seq<BookCard>, filter: string): (r: seq<BookCard>)
    ensures Subsequence(r, books)
    ensures forall i :: 0 <= i < |r| ==> Matches(r[i], filter)
    ensures forall i :: 0 <= i < |books| ==> (books[i] in r <==> Matches(books[i], filter))
  {
    FilterSubsequence(books, Matcher(filter));
    Filter(books, Matcher(filter))
  }

  /** An empty search box shows every book. */
  lemma EmptyFilterKeepsAll(books: seq<BookCard>)
    ensures FilteredBooks(books, "") == books
  {
    forall i | 0 <= i < |books| ensures Matcher("")(books[i]) {
      Text.EmptyIncluded(Text.Lower(books[i].title));
      assert Text.Lower("") == "";
    }
    FilterAll(books, Matcher(""));
  }

  /** A book is kept exactly when the lowercased filter occurs at some position of one of its fields. */
  lemma KeptIffOccurs(books: seq<BookCard>, filter: string, b: BookCard)
    requires b in books
    ensures b in FilteredBooks(books, filter) <==>
      var q := Text.Lower(filter);
      (exists k :: Text.OccursAt(Text.Lower(b.title), q, k)) ||
      (b.author.Some? && exists k :: Text.OccursAt(Text.Lower(b.author.value), q, k)) ||
      (exists i, k :: 0 <= i < |b.tagNames| && Text.OccursAt(Text.Lower(b.tagNames[i]), q, k))
  {
    var q := Text.Lower(filter);
    Text.IncludesIff(Text.Lower(b.title), q);
    if b.author.Some? {
      Text.IncludesIff(Text.Lower(b.author.value), q);
    }
    forall i | 0 <= i < |b.tagNames| ensures Text.Includes(Text.Lower(b.tagNames[i]), q) <==>
      exists k :: Text.OccursAt(Text.Lower(b.tagNames[i]), q, k) {
      Text.IncludesIff(Text.Lower(b.tagNames[i]), q);
    }
    var j :| 0 <= j < |books| && books[j] == b;
  }

  /** Without an author, only the title and the tags can match. */
  lemma NullAuthorKept(books: seq<BookCard>, filter: string, b: BookCard)
    requires b in books && b.author.None?
    ensures b in FilteredBooks(books, filter) <==>
      Text.Includes(Text.Lower(b.title), Text.Lower(filter)) || SomeTagIncludes(b.tagNames, Text.Lower(filter))
  {
    var j :| 0 <= j < |books| && books[j] == b;
  }
}
