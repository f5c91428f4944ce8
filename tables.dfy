/** The three collections of the catalogue (Author, Book, User documents)
    and the queries the resolvers put to them, with the document store
    replaced by sequences in insertion order. */
module Tables {
  import opened Common
  import opened Seqs

  /** A generated document identifier (a Mongo ObjectId). */
  type Id = nat

  datatype Author = Author(id: Id, name: string, born: Option<int>)
  datatype Book = Book(id: Id, title: string, published: int, genres: seq<string>, authorId: Id)
  datatype User = User(id: Id, username: string, favoriteGenre: string)

  /** A payload published on the BOOK_ADDED channel. */
  datatype Event = BookAdded(book: Book)

  // ----- findOne: the first document, in store order, that matches -----

  function NameIs(name: string): Author -> bool { (a: Author) => a.name == name }
  function IdIs(id: Id): Author -> bool { (a: Author) => a.id == id }
  function UsernameIs(username: string): User -> bool { (u: User) => u.username == username }
  function UserIdIs(id: Id): User -> bool { (u: User) => u.id == id }

  /** Author.findOne({ name }) */
  function AuthorIndexByName(authors: seq<Author>, name: string): (r: Option<nat>)
    ensures r.Some? ==> r.value < |authors| && authors[r.value].name == name
    ensures r.Some? ==> forall j :: 0 <= j < r.value ==> authors[j].name != name
    ensures r.None? <==> forall j :: 0 <= j < |authors| ==> authors[j].name != name
  {
    FirstIndex(authors, NameIs(name))
  }

  /** The author a stored book reference resolves to (what populate("author") finds). */
  function AuthorIndexById(authors: seq<Author>, id: Id): (r: Option<nat>)
    ensures r.Some? ==> r.value < |authors| && authors[r.value].id == id
    ensures r.Some? ==> forall j :: 0 <= j < r.value ==> authors[j].id != id
    ensures r.None? <==> forall j :: 0 <= j < |authors| ==> authors[j].id != id
  {
    FirstIndex(authors, IdIs(id))
  }

  /** User.findOne({ username }) */
  function UserIndexByName(users: seq<User>, username: string): (r: Option<nat>)
    ensures r.Some? ==> r.value < |users| && users[r.value].username == username
    ensures r.Some? ==> forall j :: 0 <= j < r.value ==> users[j].username != username
    ensures r.None? <==> forall j :: 0 <= j < |users| ==> users[j].username != username
  {
    FirstIndex(users, UsernameIs(username))
  }

  /** User.findById(id) */
  function UserIndexById(users: seq<User>, id: Id): (r: Option<nat>)
    ensures r.Some? ==> r.value < |users| && users[r.value].id == id
    ensures r.Some? ==> forall j :: 0 <= j < r.value ==> users[j].id != id
    ensures r.None? <==> forall j :: 0 <= j < |users| ==> users[j].id != id
  {
    FirstIndex(users, UserIdIs(id))
  }

  /** The name of the author a book reference resolves to, if it resolves. */
  function AuthorNameOf(authors: seq<Author>, id: Id): Option<string> {
    match AuthorIndexById(authors, id)
    case None => None
    case Some(i) => Some(authors[i].name)
  }

  // ----- Book.find(query) -----

  /** A filter document on the books collection: `author` compares the
      stored reference, `genres` matches when the array contains the value;
      a missing field does not filter. */
  datatype BookQuery = BookQuery(author: Option<Id>, genre: Option<string>)

  predicate Matches(b: Book, q: BookQuery) {
    (q.author.Some? ==> b.authorId == q.author.value) &&
    (q.genre.Some? ==> q.genre.value in b.genres)
  }

  function MatchesQuery(q: BookQuery): Book -> bool { (b: Book) => Matches(b, q) }

  /** Book.find(q): every matching book, in store order. */
  function Find(books: seq<Book>, q: BookQuery): (r: seq<Book>)
    ensures IsSubsequence(r, books)
    ensures forall b :: b in r <==> b in books && Matches(b, q)
    ensures forall b :: multiset(r)[b] == if Matches(b, q) then multiset(books)[b] else 0
  {
    Filter(books, MatchesQuery(q))
  }

  // ----- properties a store may have -----

  predicate AuthorIdsDistinct(authors: seq<Author>) {
    forall i, j :: 0 <= i < j < |authors| ==> authors[i].id != authors[j].id
  }

  predicate BookIdsDistinct(books: seq<Book>) {
    forall i, j :: 0 <= i < j < |books| ==> books[i].id != books[j].id
  }

  predicate UserIdsDistinct(users: seq<User>) {
    forall i, j :: 0 <= i < j < |users| ==> users[i].id != users[j].id
  }

  /** No two authors share a name: the uniqueness the catalogue relies on
      but does not enforce. */
  predicate NamesDistinct(authors: seq<Author>) {
    forall i, j :: 0 <= i < j < |authors| ==> authors[i].name != authors[j].name
  }

  /** Every book references a stored author. */
  predicate RefsResolve(authors: seq<Author>, books: seq<Book>) {
    forall i :: 0 <= i < |books| ==> AuthorIndexById(authors, books[i].authorId).Some?
  }

  /** Some book references the author with this id. */
  predicate HasBook(books: seq<Book>, id: Id) {
    exists j :: 0 <= j < |books| && books[j].authorId == id
  }

  /** Every author is the author of some book. */
  predicate AuthorsHaveBooks(authors: seq<Author>, books: seq<Book>) {
    forall i :: 0 <= i < |authors| ==> HasBook(books, authors[i].id)
  }

  /** With distinct ids, the author a reference resolves to is the one with that id. */
  lemma AuthorIndexByIdOfDistinct(authors: seq<Author>, k: nat)
    requires AuthorIdsDistinct(authors) && k < |authors|
    ensures AuthorIndexById(authors, authors[k].id) == Some(k)
  {
  }

  /** With distinct names, findOne by name finds the author of that name. */
  lemma AuthorIndexByNameOfDistinct(authors: seq<Author>, k: nat)
    requires NamesDistinct(authors) && k < |authors|
    ensures AuthorIndexByName(authors, authors[k].name) == Some(k)
  {
  }

  /** With distinct ids, findById finds the user with that id. */
  lemma UserIndexByIdOfDistinct(users: seq<User>, k: nat)
    requires UserIdsDistinct(users) && k < |users|
    ensures UserIndexById(users, users[k].id) == Some(k)
  {
  }

  /** Appending an author leaves every reference that resolved resolving to the same author. */
  lemma {:induction false} AuthorIndexByIdAppend(authors: seq<Author>, a: Author, id: Id)
    ensures AuthorIndexById(authors + [a], id) ==
            if AuthorIndexById(authors, id).Some? then AuthorIndexById(authors, id)
            else if a.id == id then Some(|authors|) else None
  {
    FirstIndexAppend(authors, a, IdIs(id));
  }

  /** Adding one book, and possibly its new author, keeps every author with a book. */
  lemma {:induction false} AuthorsHaveBooksAppend(authors: seq<Author>, books: seq<Book>, added: seq<Author>, b: Book)
    requires AuthorsHaveBooks(authors, books)
    requires forall k :: 0 <= k < |added| ==> added[k].id == b.authorId
    ensures AuthorsHaveBooks(authors + added, books + [b])
  {
    var authors', books' := authors + added, books + [b];
    forall i | 0 <= i < |authors'|
      ensures HasBook(books', authors'[i].id)
    {
      if i < |authors| {
        var j :| 0 <= j < |books| && books[j].authorId == authors[i].id;
        assert books'[j] == books[j] && authors'[i] == authors[i];
      } else {
        assert authors'[i] == added[i - |authors|];
        assert books'[|books|] == b;
      }
    }
    assert AuthorsHaveBooks(authors', books');
  }
}
