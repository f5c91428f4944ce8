/** The two list computations of the Books component
    (library-frontend/src/components/Books.js): the books shown for the
    selected genre filter, and the genre buttons. */
module BooksView {
  import opened Common
  import opened Seqs

  /** A book as the allBooks query delivers it to the client. */
  datatype BookRow = BookRow(title: string, authorName: string, published: int, genres: seq<string>)

  function HasGenre(genre: string): BookRow -> bool {
    (b: BookRow) => genre in b.genres
  }

  /** filteredBooks: all books while the filter is falsy, otherwise the
      books whose genres include it. */
  function FilteredBooks(books: seq<BookRow>, filter: Option<string>): (r: seq<BookRow>)
    ensures !Truthy(filter) ==> r == books
    ensures Truthy(filter) ==> IsSubsequence(r, books)
    ensures Truthy(filter) ==> forall b :: b in r <==> b in books && filter.value in b.genres
    ensures Truthy(filter) ==>
              forall b :: multiset(r)[b] == if filter.value in b.genres then multiset(books)[b] else 0
  {
    if !Truthy(filter) then books else Filter(books, HasGenre(filter.value))
  }

  /** books.flatMap(b => b.genres): every book's genres, book after book. */
  function AllGenres(books: seq<BookRow>): (r: seq<string>)
    ensures forall g :: g in r <==> exists i :: 0 <= i < |books| && g in books[i].genres
  {
    if books == [] then []
    else
      var r := AllGenres(books[..|books| - 1]) + books[|books| - 1].genres;
      assert forall i :: 0 <= i < |books| - 1 ==> books[..|books| - 1][i] == books[i];
      r
  }

  /** genres: [...new Set(allGenres)], each genre once, where it first occurs. */
  function Genres(books: seq<BookRow>): (r: seq<string>)
    ensures NoDuplicates(r)
    ensures forall g :: g in r <==> exists i :: 0 <= i < |books| && g in books[i].genres
  {
    Distinct(AllGenres(books))
  }

  /** The genre buttons come in the order in which their genres first turn
      up in the book list. */
  lemma GenresInFirstOccurrenceOrder(books: seq<BookRow>)
    ensures forall i, j :: 0 <= i < j < |Genres(books)| ==>
              IndexOf(AllGenres(books), Genres(books)[i]) < IndexOf(AllGenres(books), Genres(books)[j])
  {
    DistinctFirstOccurrenceOrder(AllGenres(books));
  }

  /** Choosing a genre button shows at least one book: the books of that
      genre, except that the button of the empty genre sets a falsy filter
      and so shows every book. */
  lemma GenreButtonShowsItsBooks(books: seq<BookRow>, k: nat)
    requires k < |Genres(books)|
    ensures FilteredBooks(books, Some(Genres(books)[k])) != []
    ensures Genres(books)[k] != "" ==>
              FilteredBooks(books, Some(Genres(books)[k])) == Filter(books, HasGenre(Genres(books)[k]))
    ensures Genres(books)[k] == "" ==> FilteredBooks(books, Some(Genres(books)[k])) == books
  {
    var g := Genres(books)[k];
    assert g in Genres(books);
    var i :| 0 <= i < |books| && g in books[i].genres;
    assert books[i] in FilteredBooks(books, Some(g));
  }
}
