# Library catalogue: the resolver layer in Dafny

This project models the GraphQL resolver layer of a small library catalogue
(a Node/Apollo server over a Mongo store, with a React client). The document
store is replaced by in-memory tables: the Author, Book and User collections
are sequences in insertion order, `findOne` is "the first match in the
sequence", a filter on `genres` means "the genres array contains the value",
and fresh document ids come from a counter. Publishing on the `BOOK_ADDED`
channel appends the payload to an event log.

Modules, one per component:

- `Common`: `Option`, `Result`, the error type, and JavaScript truthiness of
  an optional string (`null`, `undefined` and `""` are all falsy).
- `Seqs`: the generic sequence operations behind `find`, `filter`, `findOne`
  and `[...new Set(xs)]`, with their properties (subsequence, multiplicity,
  first-occurrence order).
- `Tables`: the Author, Book, User and event records, the `findOne` lookups,
  the Mongo book query, and the store properties the mutations preserve
  (references resolve, author names unique, every author has a book).
- `Store`: the class `Library` holding the three collections, the event log
  and the id counter, with the store operations the resolvers call (`save`,
  `findOneAndUpdate`, `publish`) and the find-or-create of an author.
- `Resolvers`: `library-backend-graphql/resolvers.js`.
- `Server`: what `library-backend-graphql/index.js` does differently: the
  two counts, `allAuthors` with a per-author `bookCount`, `addBook` without a
  publish, and the context function that reads the bearer header. Its
  `allBooks`, `editAuthor`, `createUser`, `login` and `me` are the same code
  as in `resolvers.js` and are modelled once, in `Resolvers`.
- `BooksView`: the `filteredBooks` and `genres` computations of the client's
  `Books` component.

Behaviour kept as the code has it:

- Every error the resolvers raise carries the code `BAD_USER_INPUT`,
  "not authenticated" included (`Error.BadUserInput`).
- `addBook` rejects titles shorter than 5 and author names shorter than 4
  characters, although both messages say "at least 3 characters".
- `login` accepts the one fixed password `"secret"` for every user, and fails
  with the same "wrong credentials" error for an unknown user and a wrong
  password.
- In `editAuthor` the `Author.find` result is not awaited, so its null check
  never fires; the null for an unknown name comes from `findOneAndUpdate`.
- A truthy `author` filter in `allBooks` naming no author makes the resolver
  throw (it reads `_id` of null); an empty-string filter does not filter.
- `allAuthors` in `resolvers.js` counts books by author name, so a name no
  book populates to has no count (see Findings).

## Model

| member | source | states |
|---|---|---|
| `Tables.AuthorIndexByName` | library-backend-graphql/resolvers.js:99 | `Author.findOne({name})` finds the first author with that name, and finds nothing exactly when no author has it |
| `Tables.AuthorIndexById` | library-backend-graphql/resolvers.js:34-37 | the author a book's reference resolves to under `populate("author")`: the first author with that id, and none exactly when no author has it |
| `Tables.UserIndexByName` | library-backend-graphql/resolvers.js:164 | `User.findOne({username})` finds the first user with that username, and finds nothing exactly when no user has it |
| `Tables.UserIndexById` | library-backend-graphql/index.js:260 | `User.findById(id)` finds the first user with that id, and finds nothing exactly when no user has it |
| `Tables.Find` | library-backend-graphql/resolvers.js:29 | `Book.find(query)` returns exactly the matching books, each as often as stored, in store order |
| `Store.Library.SaveAuthor` | library-backend-graphql/resolvers.js:102-107 | saving a new author appends it with the given name, `born` null and a fresh id; no other collection changes |
| `Store.Library.SaveBook` | library-backend-graphql/resolvers.js:113 | saving a book appends it with the given fields and a fresh id; no other collection changes |
| `Store.Library.SaveUser` | library-backend-graphql/resolvers.js:150-152 | saving a user appends it with the given fields and a fresh id |
| `Store.Library.Publish` | library-backend-graphql/resolvers.js:115 | publishing appends exactly the payload to the event log |
| `Store.Library.FindOneAndUpdateBorn` | library-backend-graphql/resolvers.js:136-146 | the first author of the name gets the new `born` and is returned with it, every other author unchanged; null and no change when the name is unknown |
| `Store.Library.FindOrCreateAuthor` | library-backend-graphql/resolvers.js:99-111 | an existing name reuses that author and adds none; an unknown name adds exactly one author with that name, `born` null and a fresh id; afterwards the id resolves to an author of that name and a repeated call adds nothing |
| `Resolvers.Me` | library-backend-graphql/resolvers.js:56-58 | `me` returns the context's user unchanged, and never fails for anonymous callers |
| `Resolvers.AllBooks` | library-backend-graphql/resolvers.js:11-30 | fails exactly when a truthy author name matches no author; otherwise returns exactly the books by the first author of that name (if given) that carry the genre (if given), in store order with multiplicity |
| `Resolvers.AllBooksUnfiltered` | library-backend-graphql/resolvers.js:12-29 | with neither filter, `allBooks` returns the whole collection |
| `Resolvers.ListedUnderItsAuthor` | library-backend-graphql/resolvers.js:14-24 | with unique names and ids, every book whose author resolves is listed by `allBooks` under its author's name (an empty name, being falsy, does not filter), alone or with any of its genres |
| `Resolvers.TallyStep` | library-backend-graphql/resolvers.js:37-41 | one step of the reduce (increment an existing entry or create it at 1) keeps the dictionary equal to the per-name count of the books seen |
| `Resolvers.CountBooksByAuthorName` | library-backend-graphql/resolvers.js:34-44 | the reduce fails exactly when some book's author does not resolve; otherwise the dictionary has an entry for exactly the names some book populates to, holding the number of those books |
| `Resolvers.AllAuthors` | library-backend-graphql/resolvers.js:31-55 | one entry per stored author in store order with name and born copied; bookCount is the number of books under that name when there is one, and absent otherwise |
| `Resolvers.CheckAddBook` | library-backend-graphql/resolvers.js:63-95 | the checks run in order (authenticated, title at least 5, author at least 4) and the first failure is the error, carrying the title or the author name |
| `Resolvers.AddsBookPreserves` | library-backend-graphql/resolvers.js:99-113 | a successful add keeps every book reference resolving, author names unique and every author with a book |
| `Resolvers.AddBook` | library-backend-graphql/resolvers.js:62-118 | a failed check is returned and changes nothing; otherwise exactly one book with the given fields and a fresh id is appended, referencing an author named `args.author` (found, or created with born null), and exactly one `BOOK_ADDED` event carrying that book is published |
| `Resolvers.SameIdsSameResolution` | library-backend-graphql/resolvers.js:136-146 | an update that keeps every author id keeps book references resolving and every author with a book |
| `Resolvers.EditAuthor` | library-backend-graphql/resolvers.js:120-147 | anonymous callers fail and change nothing; an unknown name returns null and changes nothing; otherwise the first author of the name gets `born := setBornTo` and is returned, every other author and collection unchanged |
| `Resolvers.CreateUser` | library-backend-graphql/resolvers.js:149-161 | a rejected save fails with "Creating the user failed" carrying the username and adds no user; an accepted one returns the saved user, appended with a fresh id |
| `Resolvers.Login` | library-backend-graphql/resolvers.js:163-177 | succeeds exactly when the username is stored and the password is `"secret"`, with payload `{username, id}` of the found user; both failures give the identical "wrong credentials" error |
| `Server.BookCount` | library-backend-graphql/index.js:87 | `bookCount` is the number of stored books: the length of the list an unfiltered `allBooks` returns, whatever the authors |
| `Server.AuthorCount` | library-backend-graphql/index.js:88 | `authorCount` is the number of stored authors: the length of the list `allAuthors` returns, whatever the books |
| `Server.AuthorBookCount` | library-backend-graphql/index.js:116-120 | an author's `bookCount` is the number of books referencing its id: at most the number of books, and 0 exactly when no book references it |
| `Server.AllAuthors` | library-backend-graphql/index.js:109 | every stored author in store order, each with the per-author `bookCount` |
| `Server.CountsPartitionBooks` | library-backend-graphql/index.js:116-120 | with unique ids and resolving references, the authors' bookCounts add up to `bookCount`: every book is counted once, under its own author |
| `Server.NameCountMatchesIdCount` | library-backend-graphql/resolvers.js:36-50 | with unique author ids and names, the name-keyed tally of `resolvers.js` for an author's name equals the id-based count of `index.js` |
| `Server.TallyAgainstPerAuthorCount` | library-backend-graphql/resolvers.js:46-52 | an author with k >= 1 books gets k from both `allAuthors`; an author with none gets 0 from `index.js` and no count from `resolvers.js` |
| `Server.EveryAuthorTallied` | library-backend-graphql/resolvers.js:50 | where every author has a book (as in a store only `addBook` has filled), every author gets a count from `resolvers.js` |
| `Server.UnbookedAuthorExample` | library-backend-graphql/resolvers.js:50 | one author and no books: `resolvers.js` leaves the bookCount undefined where `index.js` answers 0 |
| `Server.AddBook` | library-backend-graphql/index.js:124-178 | the same checks, find-or-create and single appended book as `resolvers.js`, storing the author's id, with the event log unchanged |
| `Server.BearerToken` | library-backend-graphql/index.js:252-256 | a token is found exactly when the header is `"Bearer "` followed by it, and is the header without its first 7 characters |
| `Server.RequestContext` | library-backend-graphql/index.js:251-264 | no bearer header gives an anonymous context; the request fails, with the invalid-token error, exactly when a bearer token does not verify; otherwise there is a current user exactly when the verified payload's id is stored, and it is the first user with that id |
| `Server.LoginThenRequest` | library-backend-graphql/index.js:251-262 | a token carrying what `login` signed, sent as a bearer header, makes the user who logged in the current user, and `me` returns them |
| `BooksView.FilteredBooks` | library-frontend/src/components/Books.js:12-14 | with a falsy filter all books; otherwise exactly the books whose genres include the filter, in order, a subsequence of the list |
| `BooksView.AllGenres` | library-frontend/src/components/Books.js:16 | the flattened list holds exactly the genres of the books |
| `BooksView.Genres` | library-frontend/src/components/Books.js:16-17 | the genre list has no duplicates and holds a string exactly when some book has it as a genre |
| `BooksView.GenresInFirstOccurrenceOrder` | library-frontend/src/components/Books.js:17 | the genres keep the order of their first occurrence in the flattened list |
| `BooksView.GenreButtonShowsItsBooks` | library-frontend/src/components/Books.js:40-44 | every genre button shows at least one book: the books having that genre, except that the `""` genre button sets a falsy filter and shows every book |
| `Seqs.Distinct` | library-frontend/src/components/Books.js:17 | spreading a `Set` built from a list keeps each element once and loses none |
| `Seqs.DistinctFirstOccurrenceOrder` | library-frontend/src/components/Books.js:17 | the spread `Set` lists elements in the order of their first occurrence |

## Left out

- The Mongo connection, the Apollo server bootstrap and the schema string (index.js:1-83, 244-267): the schema only guides the record shapes.
- `jwt.sign`: `Resolvers.Login` returns the payload that would be signed, not a signed token. `jwt.verify` is a function parameter of `Server.RequestContext`.
- `resolvers.js` calls `jwt.sign` at line 179 without importing `jsonwebtoken`; the model of `login` stops at the payload, as in `index.js`.
- Delivery of `BOOK_ADDED` to subscribers (resolvers.js:183-187): asynchronous fan-out is library behaviour. Publishing is only an append to the event log.
- Concurrency: the model is sequential, so the race between two `addBook` calls that both create the same new author is not represented.
- The `populate("author")` join: queries return stored books, whose author is an id. In `resolvers.js` the published payload carries the populated author when the author existed and only its id when it was just created; the model does not tell these apart.
- Failing saves of authors and books: the Author and Book schemas are not part of this model, so those saves always succeed. The partial state left when a book save fails after its author was saved is therefore not represented.
- `Resolvers.CreateUser`: the User schema is not part of this model, so whether the save is accepted is the parameter `accepted`; the underlying error object in `extensions.error` is not modelled.
- `Resolvers.CountBooksByAuthorName`: the tally is a map, not a plain JavaScript object, so names inherited from `Object.prototype` (`constructor`, `toString`, `__proto__`) behave like any other name.
- `Server.RequestContext`: when there is no bearer header the context function returns nothing; the model treats that as a context without a current user.
- String lengths are counted in characters, not UTF-16 code units.
- `born` is declared `String` in the schema string but is stored from an `Int` argument; it is an integer here.
- The React rendering, `useState`, the other components, routing and the query strings of the client.

## Findings

| source | as written | input that shows it | evidently intended | confidence | as-written member | corrected member |
|---|---|---|---|---|---|---|
| library-backend-graphql/resolvers.js:46-52 | `bookCount: authorWithBookCount[a.name]` is `undefined` for an author no book populates to, although the schema declares `bookCount: Int!` (index.js:39) | one author "Robert Martin", no books; `addBook` and `editAuthor` keep every author with a book (`AuthorsHaveBooks`, under which `Server.EveryAuthorTallied` gives every author a count), so this state arises only when `book.save()` at resolvers.js:113 fails after `author.save()` at line 107 succeeded, or when authors are stored by other means | `bookCount` 0, as the per-author resolver of index.js:116-120 gives | medium, not executed | `Resolvers.AllAuthors` (shown by `Server.UnbookedAuthorExample`) | `Server.AllAuthors` (with `Server.CountsPartitionBooks`) |
