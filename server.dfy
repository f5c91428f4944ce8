/** The resolvers and request context of library-backend-graphql/index.js.
    Its allBooks, editAuthor, createUser, login and me are the same code as
    in resolvers.js and are modelled once, in Resolvers; what differs here
    is the two counts, allAuthors with a per-author bookCount resolver,
    addBook without a publish, and the context function that turns a
    bearer header into the current user. */
module Server {
  import opened Common
  import opened Seqs
  import opened Tables
  import opened Store
  import Resolvers

  // ----- counts -----

  /** bookCount: countDocuments on the books collection, the length of the
      list an unfiltered allBooks returns. */
  function BookCount(books: seq<Book>): (n: nat)
    ensures forall authors: seq<Author> ::
              var r := Resolvers.AllBooks(authors, books, None, None);
              r.Ok? && n == |r.value|
  {
    assert forall authors: seq<Author> :: Resolvers.AllBooks(authors, books, None, None) == Ok(books) by {
      forall authors: seq<Author> ensures Resolvers.AllBooks(authors, books, None, None) == Ok(books) {
        Resolvers.AllBooksUnfiltered(authors, books, None, None);
      }
    }
    |books|
  }

  /** authorCount: countDocuments on the authors collection, the length of
      the list allAuthors returns whatever the books are. */
  function AuthorCount(authors: seq<Author>): (n: nat)
    ensures forall books: seq<Book> :: n == |AllAuthors(authors, books)|
  {
    |authors|
  }

  /** Author.bookCount: Book.find({ author: id }).length, so 0 for an author
      no book references. */
  function AuthorBookCount(books: seq<Book>, id: Id): (n: nat)
    ensures n <= |books|
    ensures n == 0 <==> !HasBook(books, id)
  {
    var r := Find(books, BookQuery(Some(id), None));
    SubsequenceNotLonger(r, books);
    assert HasBook(books, id) ==> r != [] by {
      if HasBook(books, id) {
        var j :| 0 <= j < |books| && books[j].authorId == id;
        assert books[j] in r;
      }
    }
    assert r != [] ==> HasBook(books, id) by {
      if r != [] {
        assert r[0] in books;
        var j :| 0 <= j < |books| && books[j] == r[0];
      }
    }
    |r|
  }

  lemma {:induction false} AuthorBookCountAppend(books: seq<Book>, b: Book, id: Id)
    ensures AuthorBookCount(books + [b], id) == AuthorBookCount(books, id) + if b.authorId == id then 1 else 0
  {
    FilterAppend(books, b, MatchesQuery(BookQuery(Some(id), None)));
  }

  /** An author as index.js's allAuthors returns it: the stored author with
      its bookCount resolved per author. */
  datatype AuthorEntry = AuthorEntry(name: string, born: Option<int>, bookCount: nat)

  /** allAuthors: Author.find({}), every author getting bookCount from the
      Author.bookCount resolver. */
  function AllAuthors(authors: seq<Author>, books: seq<Book>): (r: seq<AuthorEntry>)
    ensures |r| == |authors|
    ensures forall i :: 0 <= i < |authors| ==>
              r[i] == AuthorEntry(authors[i].name, authors[i].born, AuthorBookCount(books, authors[i].id))
  {
    seq(|authors|, i requires 0 <= i < |authors| =>
      AuthorEntry(authors[i].name, authors[i].born, AuthorBookCount(books, authors[i].id)))
  }

  /** The sum of the bookCount fields of a list of authors. */
  function TotalCount(entries: seq<AuthorEntry>): nat {
    if entries == [] then 0 else TotalCount(entries[..|entries| - 1]) + entries[|entries| - 1].bookCount
  }

  /** How many authors carry the id `id`. */
  function AuthorsWithId(authors: seq<Author>, id: Id): nat {
    if authors == [] then 0
    else AuthorsWithId(authors[..|authors| - 1], id) + if authors[|authors| - 1].id == id then 1 else 0
  }

  lemma {:induction false} AuthorsWithIdIsOne(authors: seq<Author>, id: Id)
    requires AuthorIdsDistinct(authors)
    ensures AuthorIndexById(authors, id).Some? ==> AuthorsWithId(authors, id) == 1
    ensures AuthorIndexById(authors, id).None? ==> AuthorsWithId(authors, id) == 0
  {
    if authors != [] {
      var n := |authors| - 1;
      var pre := authors[..n];
      assert authors == pre + [authors[n]];
      AuthorsWithIdIsOne(pre, id);
      AuthorIndexByIdAppend(pre, authors[n], id);
    }
  }

  /** Adding a book raises the sum of all authors' counts by the number of
      authors with the book's author id. */
  lemma {:induction false} TotalCountAppendBook(authors: seq<Author>, books: seq<Book>, b: Book)
    ensures TotalCount(AllAuthors(authors, books + [b])) ==
            TotalCount(AllAuthors(authors, books)) + AuthorsWithId(authors, b.authorId)
  {
    if authors != [] {
      var n := |authors| - 1;
      var pre := authors[..n];
      TotalCountAppendBook(pre, books, b);
      AuthorBookCountAppend(books, b, authors[n].id);
      AllAuthorsPrefix(authors, books + [b]);
      AllAuthorsPrefix(authors, books);
    }
  }

  lemma AllAuthorsPrefix(authors: seq<Author>, books: seq<Book>)
    requires authors != []
    ensures AllAuthors(authors, books)[..|authors| - 1] == AllAuthors(authors[..|authors| - 1], books)
  {
  }

  /** Where ids are unique and every book's reference resolves, the
      bookCounts of allAuthors add up to bookCount: every book is counted
      once, under its own author. */
  lemma {:induction false} CountsPartitionBooks(authors: seq<Author>, books: seq<Book>)
    requires AuthorIdsDistinct(authors) && RefsResolve(authors, books)
    ensures TotalCount(AllAuthors(authors, books)) == BookCount(books)
    decreases |books|
  {
    if books == [] {
      ZeroCounts(authors);
    } else {
      var n := |books| - 1;
      var pre := books[..n];
      assert books == pre + [books[n]];
      assert RefsResolve(authors, pre) by {
        forall k | 0 <= k < |pre| ensures AuthorIndexById(authors, pre[k].authorId).Some? {
          assert pre[k] == books[k];
        }
      }
      CountsPartitionBooks(authors, pre);
      TotalCountAppendBook(authors, pre, books[n]);
      AuthorsWithIdIsOne(authors, books[n].authorId);
    }
  }

  lemma {:induction false} ZeroCounts(authors: seq<Author>)
    ensures TotalCount(AllAuthors(authors, [])) == 0
  {
    if authors != [] {
      ZeroCounts(authors[..|authors| - 1]);
      AllAuthorsPrefix(authors, []);
    }
  }

  /** The two ways of counting agree: where author ids and names are
      unique, the name-keyed tally of resolvers.js holds for an author's
      name exactly the number of books index.js counts by the author's id. */
  lemma NameCountMatchesIdCount(authors: seq<Author>, books: seq<Book>, i: nat)
    requires AuthorIdsDistinct(authors) && NamesDistinct(authors) && i < |authors|
    ensures Resolvers.NamedCount(authors, books, authors[i].name) == AuthorBookCount(books, authors[i].id)
  {
    var a := authors[i];
    var byName := Resolvers.HasAuthorName(authors, a.name);
    var byId := MatchesQuery(BookQuery(Some(a.id), None));
    forall b | b in books
      ensures byName(b) == byId(b)
    {
      AuthorIndexByIdOfDistinct(authors, i);
      match AuthorIndexById(authors, b.authorId)
      case None =>
      case Some(k) =>
        if k != i {
          assert authors[k].name != a.name && authors[k].id != a.id by {
            if k < i { } else { }
          }
        }
    }
    FilterCongruent(books, byName, byId);
  }

  /** allAuthors of resolvers.js against allAuthors of index.js: under
      unique ids and names, an author with k >= 1 books gets bookCount k
      from both, and an author with no books gets 0 from index.js but no
      count at all from resolvers.js. */
  lemma TallyAgainstPerAuthorCount(authors: seq<Author>, books: seq<Book>, i: nat)
    requires AuthorIdsDistinct(authors) && NamesDistinct(authors) && i < |authors|
    ensures var n := Resolvers.NamedCount(authors, books, authors[i].name);
            var k := AllAuthors(authors, books)[i].bookCount;
            (if n > 0 then Some(n) else None) == (if k > 0 then Some(k) else None)
  {
    NameCountMatchesIdCount(authors, books, i);
  }

  /** In a store where every author has a book, as one that only addBook
      has filled, the tally of resolvers.js has an entry for every author. */
  lemma EveryAuthorTallied(authors: seq<Author>, books: seq<Book>, i: nat)
    requires AuthorIdsDistinct(authors) && NamesDistinct(authors) && AuthorsHaveBooks(authors, books)
    requires i < |authors|
    ensures Resolvers.NamedCount(authors, books, authors[i].name) > 0
  {
    NameCountMatchesIdCount(authors, books, i);
  }

  /** One author and no books: allAuthors of resolvers.js leaves the
      author's bookCount undefined, where index.js answers 0. */
  method UnbookedAuthorExample() returns (asWritten: Result<seq<Resolvers.AuthorView>>, intended: seq<AuthorEntry>)
    ensures asWritten == Ok([Resolvers.AuthorView("Robert Martin", None, None)])
    ensures intended == [AuthorEntry("Robert Martin", None, 0)]
  {
    var authors := [Author(0, "Robert Martin", None)];
    asWritten := Resolvers.AllAuthors(authors, []);
    assert Resolvers.NamedCount(authors, [], "Robert Martin") == 0;
    assert RefsResolve(authors, []);
    assert asWritten.value == [Resolvers.AuthorView("Robert Martin", None, None)];
    intended := AllAuthors(authors, []);
    assert intended == [AuthorEntry("Robert Martin", None, 0)];
  }

  // ----- addBook -----

  /** addBook as index.js has it: the same checks and find-or-create as in
      resolvers.js, the book saved with the author's id, and nothing
      published. */
  method AddBook(lib: Library, ctx: Resolvers.Context, title: string, author: string, published: int, genres: seq<string>)
    returns (r: Result<Book>)
    requires lib.Valid()
    modifies lib
    ensures lib.Valid()
    ensures lib.users == old(lib.users) && lib.events == old(lib.events)
    ensures r.Ok? <==> Resolvers.CheckAddBook(ctx, title, author).None?
    ensures r.Err? ==> Resolvers.CheckAddBook(ctx, title, author) == Some(r.error)
    ensures r.Err? ==> lib.authors == old(lib.authors) && lib.books == old(lib.books)
    ensures r.Ok? ==>
              Resolvers.AddsBook(old(lib.authors), old(lib.books), lib.authors, lib.books, r.value,
                                 title, author, published, genres)
    ensures old(RefsResolve(lib.authors, lib.books)) ==> RefsResolve(lib.authors, lib.books)
    ensures old(NamesDistinct(lib.authors)) ==> NamesDistinct(lib.authors)
    ensures old(AuthorsHaveBooks(lib.authors, lib.books)) ==> AuthorsHaveBooks(lib.authors, lib.books)
  {
    var check := Resolvers.CheckAddBook(ctx, title, author);
    if check.Some? {
      return Err(check.value);
    }
    var id := lib.FindOrCreateAuthor(author);
    var b := lib.SaveBook(title, published, genres, id);
    Resolvers.AddsBookPreserves(old(lib.authors), old(lib.books), lib.authors, lib.books, b,
                                title, author, published, genres);
    r := Ok(b);
  }

  // ----- request context -----

  const Bearer := "Bearer "
  const InvalidToken := Internal("invalid token")

  /** The token in an authorization header: present only for a truthy
      header starting with "Bearer ", and then the header without its first
      7 characters. */
  function BearerToken(authorization: Option<string>): (r: Option<string>)
    ensures r.Some? ==> authorization == Some(Bearer + r.value)
    ensures forall token :: authorization == Some(Bearer + token) ==> r == Some(token)
  {
    assert forall token :: (Bearer + token)[..|Bearer|] == Bearer && (Bearer + token)[7..] == token;
    if Truthy(authorization) && |authorization.value| >= |Bearer| && authorization.value[..|Bearer|] == Bearer
    then
      assert authorization.value == Bearer + authorization.value[7..];
      Some(authorization.value[7..])
    else None
  }

  /** The server's context function. `verify` stands for jwt.verify with
      the server secret: the payload of a token that verifies, None where
      jwt.verify throws. A verified token's user is looked up by id; a
      user that is gone leaves the request anonymous. */
  function RequestContext(users: seq<User>, authorization: Option<string>,
                          verify: string -> Option<Resolvers.TokenPayload>): (r: Result<Resolvers.Context>)
    ensures BearerToken(authorization).None? ==> r == Ok(Resolvers.Context(None))
    ensures r.Err? <==> BearerToken(authorization).Some? && verify(BearerToken(authorization).value).None?
    ensures r.Err? ==> r.error == InvalidToken
    ensures r.Ok? ==>
              (r.value.currentUser.Some? <==>
                 BearerToken(authorization).Some? &&
                 verify(BearerToken(authorization).value).Some? &&
                 UserIndexById(users, verify(BearerToken(authorization).value).value.id).Some?)
    ensures r.Ok? && r.value.currentUser.Some? ==>
              r.value.currentUser.value ==
                users[UserIndexById(users, verify(BearerToken(authorization).value).value.id).value]
  {
    match BearerToken(authorization)
    case None => Ok(Resolvers.Context(None))
    case Some(token) =>
      match verify(token)
      case None => Err(InvalidToken)
      case Some(payload) =>
        match UserIndexById(users, payload.id)
        case None => Ok(Resolvers.Context(None))
        case Some(i) => Ok(Resolvers.Context(Some(users[i])))
  }

  /** A token carrying what login signed, sent back as a bearer header,
      makes the user who logged in the current user, and me returns them. */
  lemma LoginThenRequest(users: seq<User>, username: string, password: string, token: string,
                         verify: string -> Option<Resolvers.TokenPayload>)
    requires UserIdsDistinct(users)
    requires Resolvers.Login(users, username, password).Ok?
    requires verify(token) == Some(Resolvers.Login(users, username, password).value)
    ensures RequestContext(users, Some(Bearer + token), verify).Ok?
    ensures Resolvers.Me(RequestContext(users, Some(Bearer + token), verify).value) ==
            Some(users[UserIndexByName(users, username).value])
  {
    var i := UserIndexByName(users, username).value;
    UserIndexByIdOfDistinct(users, i);
    assert BearerToken(Some(Bearer + token)) == Some(token);
  }
}
