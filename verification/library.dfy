/** The root `Query` and `Mutation` types: one request selects one field, whose
    resolver reads or writes the store. */
module Library {
  import opened Wrappers
  import opened Records
  import opened Resolvers

  /** The root fields with their arguments, after the framework has checked
      the arguments' presence and types. The `id` of the two single-record
      queries is optional. */
  datatype Request =
    | BookQuery(idArg: Option<int>)
    | BooksQuery
    | AuthorQuery(idArg: Option<int>)
    | AuthorsQuery
    | AddBookMutation(id: int, name: string, authorId: int)
    | DeleteBookMutation(id: int)
    | UpdateBookMutation(id: int, name: string, authorId: int)
    | AddAuthorMutation(id: int, name: string)
    | DeleteAuthorMutation(id: int)
    | UpdateAuthorMutation(id: int, name: string)
  {
    /** The fields of the root `Query` type. */
    predicate IsQuery()
    {
      BookQuery? || BooksQuery? || AuthorQuery? || AuthorsQuery?
    }
  }

  /** The value of the selected field. */
  datatype Response =
    | OneBook(book: Option<Book>)
    | AllBooks(books: seq<Book>)
    | OneAuthor(author: Option<Author>)
    | AllAuthors(authors: seq<Author>)

  /** Runs the resolver of the selected field on the store. */
  function Execute(st: Store, req: Request): (r: Result<(Store, Response), Fault>)
    ensures req.IsQuery() ==> r.Success? && r.value.0 == st
    ensures req == BooksQuery ==> r == Success((st, AllBooks(st.books)))
    ensures req == AuthorsQuery ==> r == Success((st, AllAuthors(st.authors)))
    ensures req.BookQuery? ==> r == Success((st, OneBook(BookById(st, req.idArg))))
    ensures req.AuthorQuery? ==> r == Success((st, OneAuthor(AuthorById(st, req.idArg))))
    ensures req.AddBookMutation? ==>
              var (st', book) := AddBook(st, req.id, req.name, req.authorId);
              r == Success((st', OneBook(Some(book))))
    ensures req.DeleteBookMutation? ==>
              var (st', found) := DeleteBook(st, req.id);
              r == Success((st', OneBook(found)))
    ensures req.UpdateBookMutation? ==>
              var u := UpdateBook(st, req.id, req.name, req.authorId);
              (r.Success? <==> u.Success?) &&
              (u.Success? ==> r.value == (u.value.0, OneBook(Some(u.value.1))))
    ensures req.AddAuthorMutation? ==>
              var (st', author) := AddAuthor(st, req.id, req.name);
              r == Success((st', OneAuthor(Some(author))))
    ensures req.DeleteAuthorMutation? ==>
              var (st', found) := DeleteAuthor(st, req.id);
              r == Success((st', OneAuthor(found)))
    ensures req.UpdateAuthorMutation? ==>
              var u := UpdateAuthor(st, req.id, req.name);
              (r.Success? <==> u.Success?) &&
              (u.Success? ==> r.value == (u.value.0, OneAuthor(Some(u.value.1))))
    ensures r.Failure? ==> r.error == UndefinedRecord
    ensures r.Failure? <==>
              (req.UpdateBookMutation? && forall b :: b in st.books ==> b.id != req.id) ||
              (req.UpdateAuthorMutation? && forall a :: a in st.authors ==> a.id != req.id)
  {
    match req
    case BookQuery(id) => Success((st, OneBook(BookById(st, id))))
    case BooksQuery => Success((st, AllBooks(st.books)))
    case AuthorQuery(id) => Success((st, OneAuthor(AuthorById(st, id))))
    case AuthorsQuery => Success((st, AllAuthors(st.authors)))
    case AddBookMutation(id, name, authorId) =>
      var (st', book) := AddBook(st, id, name, authorId);
      Success((st', OneBook(Some(book))))
    case DeleteBookMutation(id) =>
      var (st', book) := DeleteBook(st, id);
      Success((st', OneBook(book)))
    case UpdateBookMutation(id, name, authorId) =>
      (match UpdateBook(st, id, name, authorId)
       case Failure(e) => Failure(e)
       case Success((st', book)) => Success((st', OneBook(Some(book)))))
    case AddAuthorMutation(id, name) =>
      var (st', author) := AddAuthor(st, id, name);
      Success((st', OneAuthor(Some(author))))
    case DeleteAuthorMutation(id) =>
      var (st', author) := DeleteAuthor(st, id);
      Success((st', OneAuthor(author)))
    case UpdateAuthorMutation(id, name) =>
      (match UpdateAuthor(st, id, name)
       case Failure(e) => Failure(e)
       case Success((st', author)) => Success((st', OneAuthor(Some(author)))))
  }

  /** A query leaves the store as it was, so asking it again gives the same answer. */
  lemma QueryIdempotent(st: Store, req: Request)
    requires req.IsQuery()
    ensures Execute(st, req).Success?
    ensures Execute(Execute(st, req).value.0, req) == Execute(st, req)
  {
  }
}
