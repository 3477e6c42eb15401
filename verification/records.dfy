/** The records of the library and the in-memory store that holds them. */
module Records {
  import opened Wrappers

  /** An author: identifier and display name. */
  datatype Author = Author(id: int, name: string)

  /** A book: identifier, title, and the identifier of its author. Nothing
      checks that `authorId` names an existing author. */
  datatype Book = Book(id: int, name: string, authorId: int)

  /** The two process-wide arrays, in insertion order. Identifiers are not
      required to be unique. */
  datatype Store = Store(authors: seq<Author>, books: seq<Book>)

  /** The comparison `record.id === args.id`; an absent argument (`undefined`)
      equals no record's identifier. */
  function AuthorHasId(id: Option<int>): Author -> bool
  {
    (a: Author) => id == Some(a.id)
  }

  function BookHasId(id: Option<int>): Book -> bool
  {
    (b: Book) => id == Some(b.id)
  }

  /** The comparison `book.authorId === author.id`. */
  function WrittenBy(authorId: int): Book -> bool
  {
    (b: Book) => b.authorId == authorId
  }

  /** No two books share an identifier. */
  predicate UniqueBookIds(books: seq<Book>)
  {
    forall j, k :: 0 <= j < k < |books| ==> books[j].id != books[k].id
  }

  /** The store every process starts from. */
  function Seed(): (r: Store)
    ensures forall j :: 0 <= j < |r.authors| ==> r.authors[j].id == j + 1
    ensures forall j :: 0 <= j < |r.books| ==> r.books[j].id == j + 1
    ensures UniqueBookIds(r.books)
    ensures forall j :: 0 <= j < |r.books| ==> 1 <= r.books[j].authorId <= |r.authors|
  {
    Store(
      [ Author(1, "J. K. Rowling"),
        Author(2, "J. R. R. Tolkien"),
        Author(3, "Brent Weeks") ],
      [ Book(1, "Harry Potter and the Chamber of Secrets", 1),
        Book(2, "Harry Potter and the Prisoner of Azkaban", 1),
        Book(3, "Harry Potter and the Goblet of Fire", 1),
        Book(4, "The Fellowship of the Ring", 2),
        Book(5, "The Two Towers", 2),
        Book(6, "The Return of the King", 2),
        Book(7, "The Way of Shadows", 3),
        Book(8, "Beyond the Shadows", 3) ])
  }
}
