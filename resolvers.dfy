/** The resolvers of library-backend-graphql/resolvers.js: the queries
    allBooks, allAuthors and me, and the mutations addBook (which publishes
    BOOK_ADDED), editAuthor, createUser and login. */
module Resolvers {
  import opened Common
  import opened Seqs
  import opened Tables
  import opened Store

  /** The per-request context: the user the bearer token resolved to, or
      none for an anonymous caller. */
  datatype Context = Context(currentUser: Option<User>)

  const NotAuthenticated := BadUserInput("not authenticated", None)
  const TitleTooShort := "Book title must be at least 3 characters long"
  const AuthorTooShort := "Author name must be at least 3 characters long"
  const CreateUserFailed := "Creating the user failed"
  const WrongCredentials := BadUserInput("wrong credentials", None)
  /** The one password login accepts, whoever the user. */
  const Password := "secret"
  const NullAuthorId := Internal("Cannot read properties of null (reading '_id')")
  const NullAuthorName := Internal("Cannot read properties of null (reading 'name')")

  // ----- queries -----

  /** me: the context's user, as it is; anonymous callers get null, not an error. */
  function Me(ctx: Context): (r: Option<User>)
    ensures r == ctx.currentUser
  {
    ctx.currentUser
  }

  /** Whether allBooks keeps book `b`: a truthy `author` keeps the books
      referencing the first author of that name, a truthy `genre` the books
      listing that genre. */
  predicate Selected(authors: seq<Author>, author: Option<string>, genre: Option<string>, b: Book)
    requires Truthy(author) ==> AuthorIndexByName(authors, author.value).Some?
  {
    (Truthy(author) ==> b.authorId == authors[AuthorIndexByName(authors, author.value).value].id) &&
    (Truthy(genre) ==> genre.value in b.genres)
  }

  /** allBooks(author, genre). A truthy author name that no author has
      leaves findOne with null, and reading its _id throws. */
  function AllBooks(authors: seq<Author>, books: seq<Book>, author: Option<string>, genre: Option<string>): (r: Result<seq<Book>>)
    ensures r.Err? <==> Truthy(author) && AuthorIndexByName(authors, author.value).None?
    ensures r.Err? ==> r.error == NullAuthorId
    ensures r.Ok? ==> IsSubsequence(r.value, books)
    ensures r.Ok? ==> forall b :: multiset(r.value)[b] ==
                        if Selected(authors, author, genre, b) then multiset(books)[b] else 0
  {
    if Truthy(author) && Truthy(genre) then
      match AuthorIndexByName(authors, author.value)
      case None => Err(NullAuthorId)
      case Some(i) => Ok(Find(books, BookQuery(Some(authors[i].id), Some(genre.value))))
    else if Truthy(author) then
      match AuthorIndexByName(authors, author.value)
      case None => Err(NullAuthorId)
      case Some(i) => Ok(Find(books, BookQuery(Some(authors[i].id), None)))
    else if Truthy(genre) then
      Ok(Find(books, BookQuery(None, Some(genre.value))))
    else
      Ok(Find(books, BookQuery(None, None)))
  }

  /** Without a truthy filter allBooks lists the whole collection, in store order. */
  lemma AllBooksUnfiltered(authors: seq<Author>, books: seq<Book>, author: Option<string>, genre: Option<string>)
    requires !Truthy(author) && !Truthy(genre)
    ensures AllBooks(authors, books, author, genre) == Ok(books)
  {
    FilterKeepsAll(books, MatchesQuery(BookQuery(None, None)));
  }

  /** Where author names and ids are unique, every stored book whose author
      resolves is listed by allBooks under its author's name, alone or
      together with any genre the book has. */
  lemma ListedUnderItsAuthor(authors: seq<Author>, books: seq<Book>, k: nat, genre: Option<string>)
    requires AuthorIdsDistinct(authors) && NamesDistinct(authors)
    requires k < |books| && AuthorNameOf(authors, books[k].authorId).Some?
    requires Truthy(genre) ==> genre.value in books[k].genres
    ensures AllBooks(authors, books, AuthorNameOf(authors, books[k].authorId), genre).Ok?
    ensures books[k] in AllBooks(authors, books, AuthorNameOf(authors, books[k].authorId), genre).value
  {
    var i := AuthorIndexById(authors, books[k].authorId).value;
    AuthorIndexByNameOfDistinct(authors, i);
    var r := AllBooks(authors, books, AuthorNameOf(authors, books[k].authorId), genre);
    assert Selected(authors, AuthorNameOf(authors, books[k].authorId), genre, books[k]);
    assert books[k] in multiset(books);
    assert multiset(r.value)[books[k]] > 0;
  }

  function HasAuthorName(authors: seq<Author>, name: string): Book -> bool {
    (b: Book) => AuthorNameOf(authors, b.authorId) == Some(name)
  }

  /** The number of books whose populated author is called `name`: the
      tally allAuthors keys by author name. */
  function NamedCount(authors: seq<Author>, books: seq<Book>, name: string): nat {
    |Filter(books, HasAuthorName(authors, name))|
  }

  lemma NamedCountAppend(authors: seq<Author>, books: seq<Book>, b: Book, name: string)
    ensures NamedCount(authors, books + [b], name) ==
            NamedCount(authors, books, name) + if AuthorNameOf(authors, b.authorId) == Some(name) then 1 else 0
  {
    FilterAppend(books, b, HasAuthorName(authors, name));
  }

  /** `t` is the name-keyed tally of `books`: an entry for exactly the
      names some book populates to, holding the number of such books. */
  ghost predicate IsTally(authors: seq<Author>, books: seq<Book>, t: map<string, nat>) {
    (forall name :: name in t <==> NamedCount(authors, books, name) > 0) &&
    (forall name :: name in t ==> t[name] == NamedCount(authors, books, name))
  }

  /** One step of the reduce: the entry of the book's author name goes up by
      one, or is created at 1. */
  lemma TallyStep(authors: seq<Author>, books: seq<Book>, t: map<string, nat>, b: Book, name: string)
    requires IsTally(authors, books, t) && AuthorNameOf(authors, b.authorId) == Some(name)
    ensures IsTally(authors, books + [b], if name in t then t[name := t[name] + 1] else t[name := 1])
  {
    var t' := if name in t then t[name := t[name] + 1] else t[name := 1];
    forall n
      ensures n in t' <==> NamedCount(authors, books + [b], n) > 0
      ensures n in t' ==> t'[n] == NamedCount(authors, books + [b], n)
    {
      NamedCountAppend(authors, books, b, n);
      if n == name {
        assert t'[n] == NamedCount(authors, books, n) + 1;
      } else {
        assert (n in t' <==> n in t) && (n in t ==> t'[n] == t[n]);
      }
    }
  }

  /** The reduce in allAuthors: one pass over the populated books that
      builds a dictionary from author name to number of books. A name gets
      an entry only with its first book. A book whose author does not
      resolve populates to null, and reading its name throws. */
  method CountBooksByAuthorName(authors: seq<Author>, books: seq<Book>) returns (r: Result<map<string, nat>>)
    ensures r.Err? <==> !RefsResolve(authors, books)
    ensures r.Err? ==> r.error == NullAuthorName
    ensures r.Ok? ==> IsTally(authors, books, r.value)
  {
    var t: map<string, nat> := map[];
    var i := 0;
    while i < |books|
      invariant 0 <= i <= |books|
      invariant RefsResolve(authors, books[..i])
      invariant IsTally(authors, books[..i], t)
    {
      var b := books[i];
      var name := AuthorNameOf(authors, b.authorId);
      if name.None? {
        assert AuthorIndexById(authors, books[i].authorId).None?;
        return Err(NullAuthorName);
      }
      assert books[..i + 1] == books[..i] + [b];
      TallyStep(authors, books[..i], t, b, name.value);
      if name.value in t {
        t := t[name.value := t[name.value] + 1];
      } else {
        t := t[name.value := 1];
      }
      i := i + 1;
    }
    assert books[..i] == books;
    r := Ok(t);
  }

  /** An author as allAuthors returns it; bookCount is undefined (None) for
      a name the tally has no entry for. */
  datatype AuthorView = AuthorView(name: string, born: Option<int>, bookCount: Option<nat>)

  /** allAuthors: every stored author in store order, with name and born
      copied and the tally of its name as bookCount. */
  method AllAuthors(authors: seq<Author>, books: seq<Book>) returns (r: Result<seq<AuthorView>>)
    ensures r.Err? <==> !RefsResolve(authors, books)
    ensures r.Ok? ==> |r.value| == |authors|
    ensures r.Ok? ==> forall i :: 0 <= i < |authors| ==>
              r.value[i].name == authors[i].name && r.value[i].born == authors[i].born
    ensures r.Ok? ==> forall i :: 0 <= i < |authors| ==>
              r.value[i].bookCount ==
                if NamedCount(authors, books, authors[i].name) > 0
                then Some(NamedCount(authors, books, authors[i].name)) else None
  {
    var counts := CountBooksByAuthorName(authors, books);
    if counts.Err? {
      return Err(counts.error);
    }
    var t := counts.value;
    r := Ok(seq(|authors|, i requires 0 <= i < |authors| =>
              AuthorView(authors[i].name, authors[i].born,
                         if authors[i].name in t then Some(t[authors[i].name]) else None)));
  }

  // ----- mutations -----

  /** The checks addBook makes before touching the store, in their order:
      an authenticated caller, a title of at least 5 characters, an author
      name of at least 4 (the messages say 3). The first that fails is the
      error. */
  function CheckAddBook(ctx: Context, title: string, author: string): (r: Option<Error>)
    ensures r.None? <==> ctx.currentUser.Some? && |title| >= 5 && |author| >= 4
    ensures ctx.currentUser.None? ==> r == Some(NotAuthenticated)
    ensures ctx.currentUser.Some? && |title| < 5 ==> r == Some(BadUserInput(TitleTooShort, Some(title)))
    ensures ctx.currentUser.Some? && |title| >= 5 && |author| < 4 ==>
              r == Some(BadUserInput(AuthorTooShort, Some(author)))
  {
    if ctx.currentUser.None? then Some(NotAuthenticated)
    else if |title| < 5 then Some(BadUserInput(TitleTooShort, Some(title)))
    else if |author| < 4 then Some(BadUserInput(AuthorTooShort, Some(author)))
    else None
  }

  /** What a successful addBook does to the author and book tables (from
      `authors`, `books` to `authors'`, `books'`): exactly one new book `b`
      with the given fields and a fresh id, referencing an author called
      `author`; that author is the first existing one of the name, or else a
      new author with born null, and no other author is added. */
  predicate AddsBook(authors: seq<Author>, books: seq<Book>, authors': seq<Author>, books': seq<Book>,
                     b: Book, title: string, author: string, published: int, genres: seq<string>)
  {
    && b.title == title && b.published == published && b.genres == genres
    && (forall i :: 0 <= i < |books| ==> books[i].id != b.id)
    && books' == books + [b]
    && AuthorNameOf(authors', b.authorId) == Some(author)
    && (AuthorIndexByName(authors, author).Some? ==>
          authors' == authors && b.authorId == authors[AuthorIndexByName(authors, author).value].id)
    && (AuthorIndexByName(authors, author).None? ==>
          authors' == authors + [Author(b.authorId, author, None)] &&
          forall i :: 0 <= i < |authors| ==> authors[i].id != b.authorId)
  }

  /** A successful addBook keeps references resolving, author names unique
      and every author with a book. */
  lemma AddsBookPreserves(authors: seq<Author>, books: seq<Book>, authors': seq<Author>, books': seq<Book>,
                          b: Book, title: string, author: string, published: int, genres: seq<string>)
    requires AddsBook(authors, books, authors', books', b, title, author, published, genres)
    ensures RefsResolve(authors, books) ==> RefsResolve(authors', books')
    ensures NamesDistinct(authors) ==> NamesDistinct(authors')
    ensures AuthorsHaveBooks(authors, books) ==> AuthorsHaveBooks(authors', books')
  {
    var added := if authors' == authors then [] else [Author(b.authorId, author, None)];
    assert authors' == authors + added;
    if RefsResolve(authors, books) {
      forall i | 0 <= i < |books'|
        ensures AuthorIndexById(authors', books'[i].authorId).Some?
      {
        if i < |books| {
          assert books'[i] == books[i];
          if added != [] {
            AuthorIndexByIdAppend(authors, added[0], books[i].authorId);
          }
        }
      }
    }
    if AuthorsHaveBooks(authors, books) {
      AuthorsHaveBooksAppend(authors, books, added, b);
    }
  }

  /** addBook as resolvers.js has it: the checks, then the author is found
      or created, the book saved and published on BOOK_ADDED. A failed
      check changes nothing. */
  method AddBook(lib: Library, ctx: Context, title: string, author: string, published: int, genres: seq<string>)
    returns (r: Result<Book>)
    requires lib.Valid()
    modifies lib
    ensures lib.Valid()
    ensures lib.users == old(lib.users)
    ensures r.Ok? <==> CheckAddBook(ctx, title, author).None?
    ensures r.Err? ==> CheckAddBook(ctx, title, author) == Some(r.error)
    ensures r.Err? ==>
              lib.authors == old(lib.authors) && lib.books == old(lib.books) && lib.events == old(lib.events)
    ensures r.Ok? ==>
              AddsBook(old(lib.authors), old(lib.books), lib.authors, lib.books, r.value, title, author, published, genres)
    ensures r.Ok? ==> lib.events == old(lib.events) + [BookAdded(r.value)]
    ensures old(RefsResolve(lib.authors, lib.books)) ==> RefsResolve(lib.authors, lib.books)
    ensures old(NamesDistinct(lib.authors)) ==> NamesDistinct(lib.authors)
    ensures old(AuthorsHaveBooks(lib.authors, lib.books)) ==> AuthorsHaveBooks(lib.authors, lib.books)
  {
    var check := CheckAddBook(ctx, title, author);
    if check.Some? {
      return Err(check.value);
    }
    var id := lib.FindOrCreateAuthor(author);
    var b := lib.SaveBook(title, published, genres, id);
    lib.Publish(BookAdded(b));
    AddsBookPreserves(old(lib.authors), old(lib.books), lib.authors, lib.books, b, title, author, published, genres);
    r := Ok(b);
  }

  /** Changing born in place keeps every id, so references resolve and
      books are attributed as before. */
  lemma SameIdsSameResolution(authors: seq<Author>, authors': seq<Author>, books: seq<Book>)
    requires |authors'| == |authors|
    requires forall i :: 0 <= i < |authors| ==> authors'[i].id == authors[i].id
    ensures RefsResolve(authors, books) ==> RefsResolve(authors', books)
    ensures AuthorsHaveBooks(authors, books) ==> AuthorsHaveBooks(authors', books)
  {
    if RefsResolve(authors, books) {
      forall k | 0 <= k < |books|
        ensures AuthorIndexById(authors', books[k].authorId).Some?
      {
        var i := AuthorIndexById(authors, books[k].authorId).value;
        assert authors'[i].id == books[k].authorId;
      }
    }
  }

  /** editAuthor: for an authenticated caller, findOneAndUpdate sets born on
      the first author of that name and returns it, or returns null when
      there is none. The Author.find before it is not awaited, so its
      null check never fires. */
  method EditAuthor(lib: Library, ctx: Context, name: string, setBornTo: int) returns (r: Result<Option<Author>>)
    requires lib.Valid()
    modifies lib
    ensures lib.Valid()
    ensures lib.books == old(lib.books) && lib.users == old(lib.users) && lib.events == old(lib.events)
    ensures ctx.currentUser.None? ==> r == Err(NotAuthenticated) && lib.authors == old(lib.authors)
    ensures ctx.currentUser.Some? && AuthorIndexByName(old(lib.authors), name).None? ==>
              r == Ok(None) && lib.authors == old(lib.authors)
    ensures ctx.currentUser.Some? && AuthorIndexByName(old(lib.authors), name).Some? ==>
              var i := AuthorIndexByName(old(lib.authors), name).value;
              r == Ok(Some(old(lib.authors)[i].(born := Some(setBornTo)))) &&
              lib.authors == old(lib.authors)[i := old(lib.authors)[i].(born := Some(setBornTo))]
    ensures old(NamesDistinct(lib.authors)) ==> NamesDistinct(lib.authors)
    ensures old(RefsResolve(lib.authors, lib.books)) ==> RefsResolve(lib.authors, lib.books)
    ensures old(AuthorsHaveBooks(lib.authors, lib.books)) ==> AuthorsHaveBooks(lib.authors, lib.books)
  {
    if ctx.currentUser.None? {
      return Err(NotAuthenticated);
    }
    var updated := lib.FindOneAndUpdateBorn(name, setBornTo);
    SameIdsSameResolution(old(lib.authors), lib.authors, lib.books);
    r := Ok(updated);
  }

  /** createUser: `accepted` is whether the User schema lets the save
      through (the schema is not part of this model). A rejected save
      becomes "Creating the user failed" carrying the username, and no user
      is stored. */
  method CreateUser(lib: Library, username: string, favoriteGenre: string, accepted: bool) returns (r: Result<User>)
    requires lib.Valid()
    modifies lib
    ensures lib.Valid()
    ensures lib.authors == old(lib.authors) && lib.books == old(lib.books) && lib.events == old(lib.events)
    ensures !accepted ==>
              r == Err(BadUserInput(CreateUserFailed, Some(username))) && lib.users == old(lib.users)
    ensures accepted ==>
              r.Ok? && r.value.username == username && r.value.favoriteGenre == favoriteGenre &&
              lib.users == old(lib.users) + [r.value] &&
              forall i :: 0 <= i < |old(lib.users)| ==> old(lib.users)[i].id != r.value.id
  {
    if !accepted {
      return Err(BadUserInput(CreateUserFailed, Some(username)));
    }
    var u := lib.SaveUser(username, favoriteGenre);
    r := Ok(u);
  }

  /** What login signs into the token. */
  datatype TokenPayload = TokenPayload(username: string, id: Id)

  /** login: the user found by username and the fixed password, or the one
      "wrong credentials" error whichever of the two is wrong. */
  function Login(users: seq<User>, username: string, password: string): (r: Result<TokenPayload>)
    ensures r.Ok? <==> UserIndexByName(users, username).Some? && password == Password
    ensures r.Err? ==> r == Err(WrongCredentials)
    ensures r.Ok? ==> r.value == TokenPayload(username, users[UserIndexByName(users, username).value].id)
  {
    match UserIndexByName(users, username)
    case None => Err(WrongCredentials)
    case Some(i) =>
      if password != Password then Err(WrongCredentials)
      else Ok(TokenPayload(users[i].username, users[i].id))
  }
}
