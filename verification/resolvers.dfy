/** The resolver bodies of the schema, each a function of the store and the
    (already validated) arguments. Mutations return the new store together
    with the field's value. */
module Resolvers {
  import opened Wrappers
  import opened Sequences
  import opened Records

  /** Assigning a field of `undefined` throws a `TypeError`. */
  datatype Fault = UndefinedRecord

  // ---------------------------------------------------------------------------
  // Relational fields

  /** `Book.author`: the first author whose identifier is the book's
      `authorId`, or absent when the reference dangles. */
  function AuthorOf(st: Store, book: Book): (r: Option<Author>)
    ensures r.None? <==> forall a :: a in st.authors ==> a.id != book.authorId
    ensures r.Some? ==>
              r.value.id == book.authorId &&
              exists i :: IsFirstMatch(st.authors, AuthorHasId(Some(book.authorId)), i) && st.authors[i] == r.value
  {
    Find(st.authors, AuthorHasId(Some(book.authorId)))
  }

  /** `Author.books`: exactly the books whose `authorId` is the author's
      identifier, in store order. */
  function BooksOf(st: Store, author: Author): (r: seq<Book>)
    ensures forall k :: 0 <= k < |r| ==> r[k].authorId == author.id && r[k] in st.books
    ensures forall b :: b in st.books && b.authorId == author.id ==> b in r
    ensures forall b :: multiset(r)[b] == if b.authorId == author.id then multiset(st.books)[b] else 0
    ensures IsSubsequence(r, st.books)
  {
    FilterIsSubsequence(st.books, WrittenBy(author.id));
    FilterPartition(st.books, WrittenBy(author.id));
    Filter(st.books, WrittenBy(author.id))
  }

  // ---------------------------------------------------------------------------
  // Queries

  /** `book(id)`: the book at the smallest index with identifier `id`, or
      absent when there is none or the argument is omitted. */
  function BookById(st: Store, id: Option<int>): (r: Option<Book>)
    ensures r.None? <==> id.None? || forall b :: b in st.books ==> b.id != id.value
    ensures r.Some? ==>
              id == Some(r.value.id) &&
              exists i :: IsFirstMatch(st.books, BookHasId(id), i) && st.books[i] == r.value
  {
    Find(st.books, BookHasId(id))
  }

  /** `author(id)`: the author at the smallest index with identifier `id`, or
      absent when there is none or the argument is omitted. */
  function AuthorById(st: Store, id: Option<int>): (r: Option<Author>)
    ensures r.None? <==> id.None? || forall a :: a in st.authors ==> a.id != id.value
    ensures r.Some? ==>
              id == Some(r.value.id) &&
              exists i :: IsFirstMatch(st.authors, AuthorHasId(id), i) && st.authors[i] == r.value
  {
    Find(st.authors, AuthorHasId(id))
  }

  // ---------------------------------------------------------------------------
  // Mutations

  /** `addBook`: appends the new book, whatever its identifier, and returns it. */
  function AddBook(st: Store, id: int, name: string, authorId: int): (r: (Store, Book))
    ensures r.1 == Book(id, name, authorId)
    ensures |r.0.books| == |st.books| + 1
    ensures r.0.books[..|st.books|] == st.books && r.0.books[|st.books|] == r.1
    ensures r.0.authors == st.authors
  {
    var book := Book(id, name, authorId);
    (st.(books := st.books + [book]), book)
  }

  /** `addAuthor`: appends the new author, whatever its identifier, and returns it. */
  function AddAuthor(st: Store, id: int, name: string): (r: (Store, Author))
    ensures r.1 == Author(id, name)
    ensures |r.0.authors| == |st.authors| + 1
    ensures r.0.authors[..|st.authors|] == st.authors && r.0.authors[|st.authors|] == r.1
    ensures r.0.books == st.books
  {
    var author := Author(id, name);
    (st.(authors := st.authors + [author]), author)
  }

  /** `deleteBook`: removes the first book with identifier `id` and returns it;
      when there is none, the last book is removed and nothing is returned. */
  function DeleteBook(st: Store, id: int): (r: (Store, Option<Book>))
    ensures r.0.authors == st.authors
    ensures match FirstIndex(st.books, BookHasId(Some(id)))
            case Some(i) =>
              r.1 == Some(st.books[i]) && st.books[i].id == id && r.0.books == RemoveAt(st.books, i)
            case None =>
              r.1 == None && r.0.books == (if |st.books| == 0 then [] else st.books[..|st.books| - 1])
  {
    var (rest, found) := DeleteFirst(st.books, BookHasId(Some(id)));
    (st.(books := rest), found)
  }

  /** `deleteAuthor`: removes the first author with identifier `id` and returns
      it; when there is none, the last author is removed and nothing is
      returned. The author's books stay. */
  function DeleteAuthor(st: Store, id: int): (r: (Store, Option<Author>))
    ensures r.0.books == st.books
    ensures match FirstIndex(st.authors, AuthorHasId(Some(id)))
            case Some(i) =>
              r.1 == Some(st.authors[i]) && st.authors[i].id == id && r.0.authors == RemoveAt(st.authors, i)
            case None =>
              r.1 == None && r.0.authors == (if |st.authors| == 0 then [] else st.authors[..|st.authors| - 1])
  {
    var (rest, found) := DeleteFirst(st.authors, AuthorHasId(Some(id)));
    (st.(authors := rest), found)
  }

  /** `updateBook`: overwrites `name` and `authorId` of the first book with
      identifier `id` and returns it; with no such book the resolver throws. */
  function UpdateBook(st: Store, id: int, name: string, authorId: int): (r: Result<(Store, Book), Fault>)
    ensures r.Failure? <==> forall b :: b in st.books ==> b.id != id
    ensures r.Success? ==>
              r.value.1 == Book(id, name, authorId) && r.value.0.authors == st.authors &&
              exists i :: IsFirstMatch(st.books, BookHasId(Some(id)), i) &&
                          r.value.0.books == st.books[i := r.value.1]
  {
    match UpdateFirst(st.books, BookHasId(Some(id)), (b: Book) => b.(name := name, authorId := authorId))
    case None => Failure(UndefinedRecord)
    case Some((books, book)) => Success((st.(books := books), book))
  }

  /** `updateAuthor`: overwrites `name` of the first author with identifier
      `id` and returns it; with no such author the resolver throws. */
  function UpdateAuthor(st: Store, id: int, name: string): (r: Result<(Store, Author), Fault>)
    ensures r.Failure? <==> forall a :: a in st.authors ==> a.id != id
    ensures r.Success? ==>
              r.value.1 == Author(id, name) && r.value.0.books == st.books &&
              exists i :: IsFirstMatch(st.authors, AuthorHasId(Some(id)), i) &&
                          r.value.0.authors == st.authors[i := r.value.1]
  {
    match UpdateFirst(st.authors, AuthorHasId(Some(id)), (a: Author) => a.(name := name))
    case None => Failure(UndefinedRecord)
    case Some((authors, author)) => Success((st.(authors := authors), author))
  }
}
