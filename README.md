# Library inventory manager — a verified model

This project models the core of a small command-line library inventory
(`library.py`). A **book** has a title, an author, an ISBN and an availability
status. The status moves between `"available"` and `"issued"` through two
transitions, *issue* and *return*. Each transition is rejected, with no change,
when the book is already in the target state. The **inventory** is an ordered
list of books, searched linearly by ISBN (the first match wins) and by
case-insensitive title substring (every match, in list order). The list is
saved as a JSON array of four-key objects and loaded back from it.

The project has three modules:

- `Text` (Text.dfy): ASCII lower-casing and substring containment, used by the
  title search.
- `Books` (Books.dfy): the `Book` class, whose `status` field is updated in place.
  Also the book's plain four-field value `BookRecord`, the dictionary a book is
  saved as (`EncodeRecord`) and rebuilt from (`DecodeRecord`), and the one-line
  rendering `Describe`.
- `Inventory` (Inventory.dfy): the `LibraryInventory` class, holding a sequence
  of `Book` objects and an abstract storage file. It has the searches,
  `save_books`, `load_books`, and the add, issue, return and search actions of
  the command loop as methods.

The storage file is a `StoredFile` value: `Missing`, `Corrupt` (not valid JSON),
`Unreadable` (any other read failure) or `Stored(items)`, where `items` is the
decoded array of string-to-string dictionaries. The field `writable` says
whether a save succeeds. A failed save is only logged in the source, so in the
model it leaves the file as it was.

Two places where the code does less than its own comments suggest:

- The comment on `status` (library.py:29) names the two values "available" and
  "issued", but the field holds any string, and loading passes through whatever
  the file held. `issue` succeeds from every status except `"issued"`, and
  `return_book` from every status except `"available"`. The model keeps
  `status` as an arbitrary string.
- On a JSON parse error the code logs that it is resetting (library.py:119), but
  it does not clear the list: it re-saves the books it already holds. That list
  is empty, because loading only happens during construction. `LoadBooks` saves
  the current books, and the constructor's contract shows the empty result.

Books are objects, and `add_book` does not stop the same object from being added
twice. The issue-by-ISBN and return-by-ISBN contracts are therefore stated per
object. Every list position that holds the first matching object changes. Every
other object keeps its status.

## Model

| member | source | states |
|---|---|---|
| `Books.Book.constructor` | library.py:25-29 | the new book holds exactly the given title, author, ISBN and status; with the default status it is available |
| `Books.Book.Issue` | library.py:42-46 | succeeds exactly when the old status is not "issued"; on success the status becomes "issued", on rejection it is unchanged; either way the book ends issued and not available; title, author and ISBN are constant |
| `Books.Book.ReturnBook` | library.py:48-52 | succeeds exactly when the old status is not "available"; on success the status becomes "available", on rejection it is unchanged; either way the book ends available |
| `Books.IssueTwice` | library.py:42-46 | issuing twice in a row: the second attempt is always rejected and the book stays issued |
| `Books.ReturnTwice` | library.py:48-52 | returning twice in a row: the second attempt is always rejected and the book stays available |
| `Books.Describe` | library.py:31-32 | the rendering is the title, the separator, the author, the ISBN label, the ISBN, the status label and the status, segment by segment in that order, and nothing else (its length is the four fields plus the 23 characters of separators and labels) |
| `Books.Book.IsAvailable` | library.py:54-55 | holds exactly when the status is "available"; an available book is never one that issuing rejects |
| `Books.EncodeRecord` | library.py:34-40 | the saved dictionary has exactly the keys title, author, isbn and status, and decoding it gives back the same four fields |
| `Books.DecodeRecord` | library.py:111-116 | an entry decodes exactly when all four keys are present, and then each field is the value under its key |
| `Books.DecodeThenEncode` | library.py:34-40 | a dictionary with exactly the four keys decodes, and re-encoding the result gives back that same dictionary |
| `Inventory.EncodeAll` | library.py:97 | the saved array has one entry per book, in list order, each the book's dictionary |
| `Inventory.DecodePrefix` | library.py:111-116 | loading keeps one book per entry, in file order, until the first entry that lacks a key; every earlier entry decodes to the kept book |
| `Inventory.DecodePrefixExactly` | library.py:111-116 | what loading keeps is determined by where decoding first fails |
| `Inventory.LoadAfterSave` | library.py:94-116 | loading the array that saving writes gives back the same books, field for field and in order |
| `Inventory.LoadComplete` | library.py:94-116 | an array whose entries all have exactly the four keys loads completely, and saving the loaded books writes the same array |
| `Inventory.SearchByTitle` | library.py:74-75 | a book is in the result if and only if it is in the list and its lower-cased title contains the lower-cased query |
| `Inventory.SearchByTitleKeepsOrder` | library.py:74-75 | the result lists the books at exactly the matching positions, in increasing position order (a subsequence of the list) |
| `Inventory.EmptyQueryReturnsAll` | library.py:74-75 | an empty query returns the whole list |
| `Inventory.DuneExample` | library.py:74-75 | the query "dune" finds a book titled "Dune Messiah" and not one titled "Foundation" |
| `Text.ContainsAt` | library.py:75 | substring containment holds exactly when the query is a prefix of the title from some offset |
| `Text.DuneMessiahMatches` | library.py:75 | "dune" occurs in "Dune Messiah", ignoring case |
| `Text.FoundationDoesNotMatch` | library.py:75 | "dune" does not occur in "Foundation", ignoring case |
| `Inventory.FirstIsbnIndex` | library.py:78-82 | there is no index exactly when no book has the ISBN; otherwise the index is the smallest position whose book has that ISBN |
| `Inventory.LibraryInventory.SearchByIsbn` | library.py:78-82 | returns None exactly when no book has the ISBN; otherwise returns the book at the first position with that ISBN |
| `Inventory.LibraryInventory.AddBook` | library.py:69-71 | the new book is appended last; every earlier book stays, in order; nothing is saved |
| `Inventory.LibraryInventory.SaveBooks` | library.py:94-99 | a successful save overwrites the file with every book, in order; a failed save leaves the file unchanged |
| `Inventory.LibraryInventory.LoadBooks` | library.py:102-122 | missing file: saved from the current books. Corrupt file: saved the same way, with no books added. Unreadable file: nothing changes. Stored array: new, pairwise distinct book objects appended as `DecodePrefix` gives them, and the file is kept |
| `Inventory.LibraryInventory.AppendDecoded` | library.py:111-116 | appends one new book per decodable entry, in file order; the new books are fresh and pairwise distinct objects; earlier books are unchanged |
| `Inventory.LibraryInventory.constructor` | library.py:62-66 | starts empty and loads. A missing or corrupt file gives no books and, when writable, a file holding the empty array; a stored array gives its decoded books. The loaded books are fresh, pairwise distinct objects |
| `Inventory.LibraryInventory.AddNewBook` | library.py:146-154 | a new book object, available and with the given fields, is appended last; earlier book objects stay in place; then the inventory is saved |
| `Inventory.LibraryInventory.IssueByIsbn` | library.py:157-165 | succeeds exactly when some book has the ISBN and the first such book is not issued. Only that book object becomes issued; every other object keeps its status. The inventory is saved only on success |
| `Inventory.LibraryInventory.ReturnByIsbn` | library.py:167-176 | succeeds exactly when some book has the ISBN and the first such book is not available. Only that book object becomes available; every other object keeps its status. The inventory is saved only on success |
| `Inventory.LibraryInventory.Search` | library.py:183-200 | an exact ISBN match wins. Otherwise the non-empty title matches are reported. Otherwise nothing is found |
| `Inventory.ReloadAfterSave` | library.py:94-122 | after a successful save, a new inventory built from the saved file holds the same books, field for field and in order |
| `Inventory.IssueLoadedDuplicate` | library.py:158-165 | a file whose entry appears twice loads as two distinct books with the same ISBN; issuing by that ISBN issues only the first, and the second keeps its loaded status |

## Left out

- Logging (the `logging` configuration and every `logging.info`/`logging.error` call) is a side-effect sink and is not modelled.
- Console I/O is not modelled: the menu, `input`, the printed messages and `display_all`'s output. The command-loop actions return their outcome as a value instead (a success flag, or a `SearchResult`).
- The exit and invalid-choice branches of the command loop, and the loop itself, are not modelled; each action is a method.
- The storage path (`Path(__file__).resolve()`, `exists`, `open`) and the JSON text format are abstracted into the `StoredFile` value and the `writable` flag.
- Stored JSON that is well formed but has a different shape is not modelled: a top-level value that is not an array, entries that are not objects, and values that are not strings. The model's entries are string-to-string maps.
- A save that fails part-way and leaves a partly written file is not modelled. A save either fully succeeds or leaves the file unchanged.
- Text.Lower: lower-cases ASCII letters only, whereas Python's `str.lower` applies full Unicode case mapping.
- Concurrency is not modelled. The program is single-threaded, and two processes sharing the file are unsupported.
