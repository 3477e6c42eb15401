/** Properties that relate several resolvers: what a lookup sees after each
    mutation, and how the relational fields behave under a rename. */
module Properties {
  import opened Wrappers
  import opened Sequences
  import opened Records
  import opened Resolvers

  // ---------------------------------------------------------------------------
  // Add

  /** After `addBook`, a lookup finds what it found before; only when nothing
      had the new identifier does it find the new book. A duplicate
      identifier is therefore shadowed by the earlier book. */
  lemma AddBookThenLookup(st: Store, id: int, name: string, authorId: int, q: Option<int>)
    ensures BookById(AddBook(st, id, name, authorId).0, q) ==
              if BookById(st, q).Some? then BookById(st, q)
              else if q == Some(id) then Some(Book(id, name, authorId))
              else None
  {
    FirstIndexAppend(st.books, Book(id, name, authorId), BookHasId(q));
  }

  /** After `addAuthor`, a lookup finds what it found before; only when nothing
      had the new identifier does it find the new author. */
  lemma AddAuthorThenLookup(st: Store, id: int, name: string, q: Option<int>)
    ensures AuthorById(AddAuthor(st, id, name).0, q) ==
              if AuthorById(st, q).Some? then AuthorById(st, q)
              else if q == Some(id) then Some(Author(id, name))
              else None
  {
    FirstIndexAppend(st.authors, Author(id, name), AuthorHasId(q));
  }

  // ---------------------------------------------------------------------------
  // Delete

  /** `deleteBook` removes exactly one occurrence of the book it returns, and
      after it a lookup of the same identifier finds the next book that has
      it, if any. */
  lemma DeleteBookThenLookup(st: Store, id: int)
    requires BookById(st, Some(id)).Some?
    ensures var (st', found) := DeleteBook(st, id);
            && found == BookById(st, Some(id))
            && |st'.books| == |st.books| - 1
            && multiset(st'.books) + multiset{found.value} == multiset(st.books)
            && exists i :: IsFirstMatch(st.books, BookHasId(Some(id)), i) &&
                           BookById(st', Some(id)) == Find(st.books[i + 1..], BookHasId(Some(id)))
  {
    var i := FirstIndex(st.books, BookHasId(Some(id))).value;
    FindAtFirstIndex(st.books, BookHasId(Some(id)), i);
    RemoveAtMultiset(st.books, i);
    FindAfterRemoveFirst(st.books, BookHasId(Some(id)), i);
  }

  /** With unique identifiers, a deleted identifier is gone: `deleteBook(id)`
      followed by `book(id)` gives absent, whether or not a book matched. */
  lemma DeleteUniqueBookThenLookup(st: Store, id: int)
    requires UniqueBookIds(st.books)
    ensures BookById(DeleteBook(st, id).0, Some(id)) == None
  {
    var p := BookHasId(Some(id));
    match FirstIndex(st.books, p)
    case Some(i) =>
      FindAfterRemoveFirst(st.books, p, i);
      assert NoMatch(st.books[i + 1..], p);
    case None =>
      var rest := DeleteBook(st, id).0.books;
      assert NoMatch(rest, p);
  }

  /** `deleteAuthor` removes exactly one occurrence of the author it returns,
      and after it a lookup of the same identifier finds the next author that
      has it, if any. Books are not touched. */
  lemma DeleteAuthorThenLookup(st: Store, id: int)
    requires AuthorById(st, Some(id)).Some?
    ensures var (st', found) := DeleteAuthor(st, id);
            && found == AuthorById(st, Some(id))
            && |st'.authors| == |st.authors| - 1
            && multiset(st'.authors) + multiset{found.value} == multiset(st.authors)
            && st'.books == st.books
            && exists i :: IsFirstMatch(st.authors, AuthorHasId(Some(id)), i) &&
                           AuthorById(st', Some(id)) == Find(st.authors[i + 1..], AuthorHasId(Some(id)))
  {
    var i := FirstIndex(st.authors, AuthorHasId(Some(id))).value;
    FindAtFirstIndex(st.authors, AuthorHasId(Some(id)), i);
    RemoveAtMultiset(st.authors, i);
    FindAfterRemoveFirst(st.authors, AuthorHasId(Some(id)), i);
  }

  // ---------------------------------------------------------------------------
  // Update

  /** After `updateBook`, `book(id)` returns the updated book and every other
      lookup returns what it returned before. */
  lemma UpdateBookThenLookup(st: Store, id: int, name: string, authorId: int, q: Option<int>)
    requires UpdateBook(st, id, name, authorId).Success?
    ensures BookById(UpdateBook(st, id, name, authorId).value.0, q) ==
              if q == Some(id) then Some(Book(id, name, authorId)) else BookById(st, q)
  {
    var i := FirstIndex(st.books, BookHasId(Some(id))).value;
    FindAtFirstIndex(st.books, BookHasId(Some(id)), i);
    FindUpdate(st.books, BookHasId(q), i, Book(id, name, authorId));
  }

  /** Repeating an `updateBook` changes nothing further. */
  lemma UpdateBookIdempotent(st: Store, id: int, name: string, authorId: int)
    requires UpdateBook(st, id, name, authorId).Success?
    ensures var (st', book) := UpdateBook(st, id, name, authorId).value;
            UpdateBook(st', id, name, authorId) == Success((st', book))
  {
    var i := FirstIndex(st.books, BookHasId(Some(id))).value;
    var book := Book(id, name, authorId);
    FindAtFirstIndex(st.books, BookHasId(Some(id)), i);
    FirstIndexUpdate(st.books, BookHasId(Some(id)), i, book);
    assert st.books[i := book][i := book] == st.books[i := book];
  }

  /** After `updateAuthor`, `author(id)` returns the renamed author and every
      other lookup returns what it returned before. */
  lemma UpdateAuthorThenLookup(st: Store, id: int, name: string, q: Option<int>)
    requires UpdateAuthor(st, id, name).Success?
    ensures AuthorById(UpdateAuthor(st, id, name).value.0, q) ==
              if q == Some(id) then Some(Author(id, name)) else AuthorById(st, q)
  {
    var i := FirstIndex(st.authors, AuthorHasId(Some(id))).value;
    FindAtFirstIndex(st.authors, AuthorHasId(Some(id)), i);
    FindUpdate(st.authors, AuthorHasId(q), i, Author(id, name));
  }

  /** Renaming an author keeps every relation: the renamed author has the
      same books as before, and each book resolves to the same author record
      as before, seen under its new name when it is the renamed one. */
  lemma RenameAuthorKeepsRelations(st: Store, id: int, name: string)
    requires UpdateAuthor(st, id, name).Success?
    ensures var (st', renamed) := UpdateAuthor(st, id, name).value;
            && BooksOf(st', renamed) == BooksOf(st, AuthorById(st, Some(id)).value)
            && forall b :: AuthorOf(st', b) ==
                             if b.authorId == id then Some(renamed) else AuthorOf(st, b)
  {
    var (st', renamed) := UpdateAuthor(st, id, name).value;
    var i := FirstIndex(st.authors, AuthorHasId(Some(id))).value;
    FindAtFirstIndex(st.authors, AuthorHasId(Some(id)), i);
    forall b: Book
      ensures AuthorOf(st', b) == if b.authorId == id then Some(renamed) else AuthorOf(st, b)
    {
      FindUpdate(st.authors, AuthorHasId(Some(b.authorId)), i, renamed);
    }
  }

  // ---------------------------------------------------------------------------
  // Scenarios on the seed data

  /** The filter on author 2 over eight books whose authors are 1, 1, 1, 2,
      2, 2, 3, 3 keeps the middle three. */
  lemma {:induction false} WrittenByTwoOfEight(s: seq<Book>)
    requires |s| == 8
    requires s[0].authorId == s[1].authorId == s[2].authorId == 1
    requires s[3].authorId == s[4].authorId == s[5].authorId == 2
    requires s[6].authorId == s[7].authorId == 3
    ensures Filter(s, WrittenBy(2)) == [s[3], s[4], s[5]]
  {
    var p := WrittenBy(2);
    assert Filter(s[8..], p) == [];
    assert Filter(s[7..], p) == [];
    assert Filter(s[6..], p) == [];
    assert Filter(s[5..], p) == [s[5]];
    assert Filter(s[4..], p) == [s[4], s[5]];
    assert Filter(s[3..], p) == [s[3], s[4], s[5]];
    assert Filter(s[2..], p) == [s[3], s[4], s[5]];
    assert Filter(s[1..], p) == [s[3], s[4], s[5]];
    assert s[0..] == s;
  }

  /** Tolkien (author 2) owns books 4, 5 and 6, in that order. */
  lemma SeedTolkienBooks()
    ensures BooksOf(Seed(), Author(2, "J. R. R. Tolkien")) ==
              [ Book(4, "The Fellowship of the Ring", 2),
                Book(5, "The Two Towers", 2),
                Book(6, "The Return of the King", 2) ]
  {
    WrittenByTwoOfEight(Seed().books);
  }

  /** `addBook(id: 9, name: "X", authorId: 1)` then `book(9)` returns that book. */
  lemma SeedAddThenLookup()
    ensures BookById(AddBook(Seed(), 9, "X", 1).0, Some(9)) == Some(Book(9, "X", 1))
  {
    AddBookThenLookup(Seed(), 9, "X", 1, Some(9));
  }

  /** `deleteBook(id: 1)` then `book(1)` is absent and one book fewer remains. */
  lemma SeedDeleteThenLookup()
    ensures BookById(DeleteBook(Seed(), 1).0, Some(1)) == None
    ensures |DeleteBook(Seed(), 1).0.books| == 7
  {
    var s := Seed().books;
    assert forall j :: 0 <= j < |s| ==> s[j].id == j + 1;
    assert IsFirstMatch(s, BookHasId(Some(1)), 0);
    FindAtFirstIndex(s, BookHasId(Some(1)), 0);
    DeleteUniqueBookThenLookup(Seed(), 1);
  }

  /** `updateAuthor(id: 1, name: "New Name")` renames author 1 and leaves its
      books as they were. */
  lemma SeedRenameAuthor()
    ensures var (st', renamed) := UpdateAuthor(Seed(), 1, "New Name").value;
            && AuthorById(st', Some(1)) == Some(Author(1, "New Name"))
            && BooksOf(st', renamed) == BooksOf(Seed(), Author(1, "J. K. Rowling"))
  {
  }
}
