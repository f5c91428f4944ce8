/** The document store the resolvers work against: the Author, Book and
    User collections, the log of payloads published on the BOOK_ADDED
    channel, and the generator of fresh document ids. Its methods are the
    store operations the resolvers call (save, findOneAndUpdate, publish). */
module Store {
  import opened Common
  import opened Tables

  class Library {
    var authors: seq<Author>
    var books: seq<Book>
    var users: seq<User>
    var events: seq<Event>
    /** No stored document has an id at or above nextId. */
    var nextId: Id

    /** Every stored id was handed out before and names one document only. */
    ghost predicate Valid()
      reads this
    {
      && (forall i :: 0 <= i < |authors| ==> authors[i].id < nextId)
      && (forall i :: 0 <= i < |books| ==> books[i].id < nextId)
      && (forall i :: 0 <= i < |users| ==> users[i].id < nextId)
      && AuthorIdsDistinct(authors)
      && BookIdsDistinct(books)
      && UserIdsDistinct(users)
    }

    constructor ()
      ensures Valid()
      ensures authors == [] && books == [] && users == [] && events == []
    {
      authors, books, users, events := [], [], [], [];
      nextId := 0;
    }

    /** new Author({ name, born: null }).save() */
    method SaveAuthor(name: string) returns (a: Author)
      requires Valid()
      modifies this
      ensures Valid()
      ensures a.name == name && a.born == None
      ensures forall i :: 0 <= i < |old(authors)| ==> old(authors)[i].id != a.id
      ensures authors == old(authors) + [a]
      ensures books == old(books) && users == old(users) && events == old(events)
    {
      a := Author(nextId, name, None);
      authors := authors + [a];
      nextId := nextId + 1;
    }

    /** new Book({ title, published, genres, author }).save() */
    method SaveBook(title: string, published: int, genres: seq<string>, authorId: Id) returns (b: Book)
      requires Valid()
      modifies this
      ensures Valid()
      ensures b.title == title && b.published == published && b.genres == genres && b.authorId == authorId
      ensures forall i :: 0 <= i < |old(books)| ==> old(books)[i].id != b.id
      ensures books == old(books) + [b]
      ensures authors == old(authors) && users == old(users) && events == old(events)
    {
      b := Book(nextId, title, published, genres, authorId);
      books := books + [b];
      nextId := nextId + 1;
    }

    /** new User({ username, favoriteGenre }).save() once the User schema has accepted it. */
    method SaveUser(username: string, favoriteGenre: string) returns (u: User)
      requires Valid()
      modifies this
      ensures Valid()
      ensures u.username == username && u.favoriteGenre == favoriteGenre
      ensures forall i :: 0 <= i < |old(users)| ==> old(users)[i].id != u.id
      ensures users == old(users) + [u]
      ensures authors == old(authors) && books == old(books) && events == old(events)
    {
      u := User(nextId, username, favoriteGenre);
      users := users + [u];
      nextId := nextId + 1;
    }

    /** pubsub.publish: the payload is appended to the channel's log. */
    method Publish(e: Event)
      modifies this`events
      ensures events == old(events) + [e]
    {
      events := events + [e];
    }

    /** Author.findOneAndUpdate({ name }, { $set: { born } }, { returnDocument: "after" }):
        the first author of that name gets the new birth year and is
        returned; null when no author has that name. */
    method FindOneAndUpdateBorn(name: string, born: int) returns (r: Option<Author>)
      requires Valid()
      modifies this`authors
      ensures Valid()
      ensures AuthorIndexByName(old(authors), name).None? ==> r.None? && authors == old(authors)
      ensures AuthorIndexByName(old(authors), name).Some? ==>
                var i := AuthorIndexByName(old(authors), name).value;
                r == Some(old(authors)[i].(born := Some(born))) &&
                authors == old(authors)[i := r.value]
    {
      match AuthorIndexByName(authors, name)
      case None =>
        r := None;
      case Some(i) =>
        var updated := authors[i].(born := Some(born));
        authors := authors[i := updated];
        r := Some(updated);
    }

    /** Author.findOne({ name }) and, when that finds nothing,
        new Author({ name, born: null }).save(): the id of the author a new
        book by `name` references. A second call with the same name adds
        nothing, because afterwards the name is found. */
    method FindOrCreateAuthor(name: string) returns (id: Id)
      requires Valid()
      modifies this
      ensures Valid()
      ensures books == old(books) && users == old(users) && events == old(events)
      ensures AuthorIndexByName(old(authors), name).Some? ==>
                authors == old(authors) &&
                id == old(authors)[AuthorIndexByName(old(authors), name).value].id
      ensures AuthorIndexByName(old(authors), name).None? ==>
                authors == old(authors) + [Author(id, name, None)] &&
                forall i :: 0 <= i < |old(authors)| ==> old(authors)[i].id != id
      ensures AuthorNameOf(authors, id) == Some(name)
      ensures AuthorIndexByName(authors, name).Some?
    {
      match AuthorIndexByName(authors, name)
      case Some(i) =>
        id := authors[i].id;
        AuthorIndexByIdOfDistinct(authors, i);
      case None =>
        var a := SaveAuthor(name);
        id := a.id;
        AuthorIndexByIdOfDistinct(authors, |authors| - 1);
    }
  }
}
