# Library record store: a Dafny model

This project models the in-memory record store behind the GraphQL resolvers of
`server.js`: two ordered arrays, `authors` and `books`, and the twelve resolver
bodies that read and write them. Each array is a `seq` inside an immutable
`Store`; every resolver is a pure function from the store and its (already
validated) arguments to the field's value and, for mutations, the new store.

Modules:

- `Wrappers` (`wrappers.dfy`): `Option` stands for a value or JavaScript's `undefined`; `Result` stands for a value or a thrown error.
- `Sequences` (`sequences.dfy`): the JavaScript array primitives the resolvers use, on sequences.
  These are `find` (`FirstIndex`, `Find`), `filter` (`Filter`), `indexOf` (`IndexOf`) and `splice` (`Splice`).
  The module also holds the two resolver idioms built from them: `find`/`indexOf`/`splice` (`DeleteFirst`) and `find`-then-assign (`UpdateFirst`).
- `Records` (`records.dfy`): the `Author`, `Book` and `Store` datatypes, the identifier comparisons and the seed data.
- `Resolvers` (`resolvers.dfy`): `Book.author`, `Author.books`, the two single-record queries and the six mutations.
- `Library` (`library.dfy`): the root `Query` and `Mutation` fields as one `Request` datatype, dispatched by `Execute`.
- `Properties` (`properties.dfy`): lemmas that relate several resolvers, plus scenarios on the seed data.

Behaviour kept from the code:

- Identifiers are never checked for uniqueness. Every lookup, delete and update acts on the first record whose identifier matches.
- `deleteBook` / `deleteAuthor` with no matching identifier: `find` gives `undefined` and `indexOf(undefined)` gives -1.
  `splice(-1, 1)` then removes the LAST record of a non-empty array, and the resolver returns absent.
  The model keeps this behaviour rather than treating a missing identifier as a failure.
- `updateBook` / `updateAuthor` with no matching identifier assign a field of `undefined`, which throws a `TypeError`.
  The model returns `Failure(UndefinedRecord)`.
  The error is thrown before any field is assigned, so a `Failure` leaves both arrays as they were; the field's value is then null.
- The `id` argument of the `book` and `author` queries is nullable. An omitted `id` (`None`) equals no identifier, so the query returns absent.
- `indexOf` compares object references in JavaScript. The model compares values instead.
  `Sequences.IndexOfFound` shows that for the record `find` returned, both give the same index: the first match.

## Model

| member | source | states |
|---|---|---|
| Sequences.FirstIndex | server.js:65 | the index `find` stops at is the smallest one whose element satisfies the predicate; none exists exactly when no element does |
| Sequences.Find | server.js:87 | `find` returns absent exactly when nothing matches, otherwise the element at a first-match index |
| Sequences.Filter | server.js:49 | every kept element satisfies the predicate and comes from the input; every satisfying input element is kept |
| Sequences.FilterIsSubsequence | server.js:49 | a filter result is a subsequence of the input, so store order is kept |
| Sequences.FilterConcat | server.js:49 | filtering distributes over concatenation, so relative order between any two kept elements is the input's |
| Sequences.FilterPartition | server.js:49 | a filter and the filter on the negated predicate together hold every input element exactly as often as the input does |
| Sequences.IndexOf | server.js:119 | `indexOf` gives -1 exactly for `undefined` or a value not present, otherwise the first index holding the value |
| Sequences.IndexOfFound | server.js:118-119 | `indexOf` of the record `find` returned is the first-match index, or -1 when `find` gave `undefined` |
| Sequences.Splice | server.js:119 | the array left by `splice` does not grow; its exact effect is stated by the two rows below |
| Sequences.SpliceOneAt | server.js:119 | `splice(i, 1)` at a valid index removes exactly element `i`, keeping the others in order |
| Sequences.SpliceOneFromEnd | server.js:119 | `splice(-1, 1)` removes the last element of a non-empty array and leaves an empty array as it is |
| Sequences.RemoveAtMultiset | server.js:119 | removing at an index drops exactly one occurrence of that element |
| Sequences.FirstIndexAppend | server.js:106 | appending never moves an existing first match; the new element is found only when nothing earlier matched |
| Sequences.FindAfterRemoveFirst | server.js:118-119 | after removing the first match, `find` returns the next match after it |
| Sequences.FirstIndexUpdate | server.js:133-135 | overwriting an element with one that the predicate judges the same way keeps the first match in place |
| Sequences.FindUpdate | server.js:175-176 | under the same condition, `find` returns the new element only if it replaced the first match |
| Sequences.DeleteFirst | server.js:117-121 | find, `indexOf`, `splice(index, 1)`: removes and returns the first match, or with no match removes the last element and returns absent |
| Sequences.UpdateFirst | server.js:132-137 | find then assign: replaces the first match by its updated version and returns it; no match is the fault |
| Records.Seed | server.js:7-22 | the seed authors and books have identifiers 1, 2, … in order, so book identifiers are unique, and every seed book's `authorId` is between 1 and the number of seed authors, so it names a seed author |
| Resolvers.AuthorOf | server.js:33-35 | `Book.author` is absent exactly when no author has the book's `authorId`, else it is the first author with that identifier |
| Resolvers.BooksOf | server.js:48-50 | `Author.books` holds exactly the books whose `authorId` is the author's identifier, each as often as in the store, as a subsequence of the store |
| Resolvers.BookById | server.js:65 | `book(id)` is the book at the smallest index with that identifier; it is absent when there is none or the argument is omitted |
| Resolvers.AuthorById | server.js:87 | `author(id)` is the author at the smallest index with that identifier; it is absent when there is none or the argument is omitted |
| Resolvers.AddBook | server.js:104-108 | appends one book equal to the arguments. Length grows by one, earlier books and the authors are unchanged, and the new book is returned |
| Resolvers.AddAuthor | server.js:147-151 | appends one author equal to the arguments. Length grows by one, earlier authors and the books are unchanged, and the new author is returned |
| Resolvers.DeleteBook | server.js:117-121 | with a match: removes and returns the first matching book, keeping the rest in order. With none: drops the last book (if any) and returns absent |
| Resolvers.DeleteAuthor | server.js:160-164 | the same for authors; books are never touched (no cascade) |
| Resolvers.UpdateBook | server.js:132-137 | faults exactly when no book has the identifier. Otherwise only the first match changes, to the new name and `authorId` with its identifier kept, and it is returned |
| Resolvers.UpdateAuthor | server.js:174-178 | faults exactly when no author has the identifier. Otherwise only the first match changes, to the new name, and it is returned |
| Library.Execute | server.js:58-179 | each root field answers with its resolver: queries leave the store unchanged, `books` / `authors` return the whole arrays, and each mutation returns its resolver's new store and record. A request faults exactly when it is an update of a missing identifier |
| Library.QueryIdempotent | server.js:65-87 | asking the same query twice without a mutation in between gives the same answer |
| Properties.AddBookThenLookup | server.js:65 | after `addBook`, every lookup returns what it did before. Only when nothing had the new identifier does a lookup of it return the new book, so duplicates are shadowed |
| Properties.AddAuthorThenLookup | server.js:147-151 | the same for `addAuthor` and `author(id)` |
| Properties.DeleteBookThenLookup | server.js:117-121 | a matching `deleteBook` returns the first match and shortens the store by one. It removes exactly that one record, and a later lookup finds the next match |
| Properties.DeleteUniqueBookThenLookup | server.js:117-121 | with unique identifiers, `book(id)` after `deleteBook(id)` is absent |
| Properties.DeleteAuthorThenLookup | server.js:160-164 | a matching `deleteAuthor` returns the first match and shortens the authors by one. It removes exactly that one record and leaves the books alone |
| Properties.UpdateBookThenLookup | server.js:132-137 | after `updateBook`, `book(id)` is the updated book and every other lookup is unchanged |
| Properties.UpdateBookIdempotent | server.js:132-137 | repeating an `updateBook` leaves the store and the result as they were |
| Properties.UpdateAuthorThenLookup | server.js:174-178 | after `updateAuthor`, `author(id)` is the renamed author and every other lookup is unchanged |
| Properties.RenameAuthorKeepsRelations | server.js:174-178 | a rename keeps the renamed author's books. `Book.author` resolves to the renamed record for its books and to the same author as before for every other book |
| Properties.WrittenByTwoOfEight | server.js:13-22 | with the seed's pattern of `authorId`s, filtering on author 2 keeps the fourth to sixth books |
| Properties.SeedTolkienBooks | server.js:7-22 | in the seed data, author 2 owns books 4, 5 and 6, in that order |
| Properties.SeedAddThenLookup | server.js:104-108 | on the seed data, `addBook(9, "X", 1)` then `book(9)` returns that book |
| Properties.SeedDeleteThenLookup | server.js:117-121 | on the seed data, `deleteBook(1)` leaves seven books and `book(1)` absent |
| Properties.SeedRenameAuthor | server.js:174-178 | on the seed data, renaming author 1 shows the new name and keeps its books |

## Left out

- The Express application, the `/graphql` endpoint, the GraphiQL interface and the port listener (server.js:1-5, 188-193): these are I/O and server wiring.
- Construction of the GraphQL schema and object types, and argument validation (server.js:24-30, 40-45, 55-63, 92-103, 183-186).
  The `graphql` library rejects missing or mistyped arguments before any resolver runs. The model takes the arguments as already-typed values.
- The 32-bit range of `GraphQLInt`: identifiers are unbounded `int`s. The library rejects out-of-range values before the resolvers, and the resolvers do no arithmetic on them.
- Lazy, per-field resolution of nested fields and interleaving between requests: each resolver runs to completion on one thread.
  The relational fields are modelled as functions of the store they are resolved against.
- Object identity: records are values. Nothing in the resolvers places one object in two slots, so no aliasing beyond the in-place update is modelled.
- Sequences.Splice: its own contract states only that the array does not grow. Its exact effect for the two starts the resolvers produce is stated by `SpliceOneAt` and `SpliceOneFromEnd`, and `splice`'s array of removed elements (ignored by the resolvers) is not returned.
