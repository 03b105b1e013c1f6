/** The in-memory catalogue (`LibraryInventory` in library.py): an ordered list
    of books, its look-ups, its load/save against an abstract storage file, and
    the add, issue, return and search actions of the command loop. */
module Inventory {
  import opened Books
  import opened Text

  /** What the storage file holds, as far as the catalogue can tell once the
      JSON layer has done its work. */
  datatype StoredFile =
    | Missing                      // no file at the storage path
    | Corrupt                      // the text is not valid JSON
    | Unreadable                   // any other failure to open or read it
    | Stored(items: seq<Dict>)     // a JSON array of objects

  /** The JSON array `save_books` writes: one `to_dict` per book, in order. */
  function EncodeAll(rs: seq<BookRecord>): (ds: seq<Dict>)
    ensures |ds| == |rs|
    ensures forall k :: 0 <= k < |rs| ==> ds[k] == EncodeRecord(rs[k])
  {
    if rs == [] then [] else [EncodeRecord(rs[0])] + EncodeAll(rs[1..])
  }

  /** The books the reconstruction loop of `load_books` appends: one per entry,
      in file order, up to the first entry with a missing key (the KeyError ends
      the loop; what was appended before it stays). */
  function DecodePrefix(items: seq<Dict>): (rs: seq<BookRecord>)
    ensures |rs| <= |items|
    ensures forall k :: 0 <= k < |rs| ==> DecodeRecord(items[k]) == Some(rs[k])
    ensures |rs| < |items| ==> DecodeRecord(items[|rs|]).None?
  {
    if items == [] then []
    else match DecodeRecord(items[0])
      case None => []
      case Some(r) => [r] + DecodePrefix(items[1..])
  }

  /** Loading what was saved gives back the same books, field for field and in
      the same order. */
  lemma LoadAfterSave(rs: seq<BookRecord>)
    ensures DecodePrefix(EncodeAll(rs)) == rs
  {
    var ds := EncodeAll(rs);
    DecodePrefixExactly(ds, rs, |rs|);
  }

  /** The decoded prefix is determined by where decoding first fails: if the
      first `n` entries decode to `rs` and entry `n` does not decode (or there is
      none), then `rs` is what the loop appends. */
  lemma {:induction false} DecodePrefixExactly(items: seq<Dict>, rs: seq<BookRecord>, n: nat)
    requires n == |rs| <= |items|
    requires forall k :: 0 <= k < n ==> DecodeRecord(items[k]) == Some(rs[k])
    requires n < |items| ==> DecodeRecord(items[n]).None?
    ensures DecodePrefix(items) == rs
  {
    if items != [] && n > 0 {
      assert DecodeRecord(items[0]) == Some(rs[0]);
      DecodePrefixExactly(items[1..], rs[1..], n - 1);
      assert [rs[0]] + rs[1..] == rs;
    }
  }

  /** A file written by `save_books` (every entry has exactly the four keys)
      loads completely, and saving the loaded books writes the same entries. */
  lemma LoadComplete(items: seq<Dict>)
    requires forall k :: 0 <= k < |items| ==> items[k].Keys == {TitleKey, AuthorKey, IsbnKey, StatusKey}
    ensures |DecodePrefix(items)| == |items|
    ensures EncodeAll(DecodePrefix(items)) == items
  {
    var rs := DecodePrefix(items);
    if |rs| < |items| {
      DecodeThenEncode(items[|rs|]);
    }
    forall k | 0 <= k < |items| ensures EncodeAll(rs)[k] == items[k] {
      DecodeThenEncode(items[k]);
    }
  }

  /** Case-insensitive substring match of the query against a title. */
  predicate TitleMatches(title: string, query: string)
  {
    Contains(Lower(title), Lower(query))
  }

  /** `search_by_title`: the books whose title matches the query. */
  function SearchByTitle(bs: seq<Book>, query: string): (r: seq<Book>)
    ensures |r| <= |bs|
    ensures forall b :: b in r ==> b in bs && TitleMatches(b.title, query)
    ensures forall b :: b in bs && TitleMatches(b.title, query) ==> b in r
  {
    if bs == [] then []
    else if TitleMatches(bs[0].title, query) then [bs[0]] + SearchByTitle(bs[1..], query)
    else SearchByTitle(bs[1..], query)
  }

  /** `idx` lists, in increasing order, exactly the positions of `bs` whose
      title matches the query, and `r` holds the books at those positions. */
  ghost predicate MatchPositions(bs: seq<Book>, query: string, r: seq<Book>, idx: seq<nat>)
  {
    && |idx| == |r|
    && (forall j :: 0 <= j < |idx| ==> idx[j] < |bs| && r[j] == bs[idx[j]])
    && (forall j1, j2 :: 0 <= j1 < j2 < |idx| ==> idx[j1] < idx[j2])
    && (forall i :: 0 <= i < |bs| ==> (TitleMatches(bs[i].title, query) <==> i in idx))
  }

  /** Search result order: `search_by_title` returns the matching books at
      their positions in the list, in increasing order, and no others. */
  lemma {:induction false} SearchByTitleKeepsOrder(bs: seq<Book>, query: string) returns (idx: seq<nat>)
    ensures MatchPositions(bs, query, SearchByTitle(bs, query), idx)
  {
    if bs == [] {
      idx := [];
    } else {
      var rest := SearchByTitleKeepsOrder(bs[1..], query);
      idx := MatchPositionsCons(bs[0], bs[1..], query, SearchByTitle(bs[1..], query), rest);
      assert [bs[0]] + bs[1..] == bs;
    }
  }

  /** One step of the search: putting a book in front shifts every position
      by one and adds position 0 when that book matches. */
  lemma MatchPositionsCons(b: Book, bs: seq<Book>, query: string, r: seq<Book>, rest: seq<nat>)
    returns (idx: seq<nat>)
    requires MatchPositions(bs, query, r, rest)
    ensures MatchPositions([b] + bs, query, if TitleMatches(b.title, query) then [b] + r else r, idx)
  {
    var shifted := Shifted(rest);
    ShiftedPositions(b, bs, query, rest, shifted);
    if TitleMatches(b.title, query) {
      idx := [0] + shifted;
      PrependMatch(b, bs, query, r, shifted);
    } else {
      idx := shifted;
    }
  }

  /** The case where the book put in front matches: position 0 joins the list. */
  lemma PrependMatch(b: Book, bs: seq<Book>, query: string, r: seq<Book>, shifted: seq<nat>)
    requires TitleMatches(b.title, query)
    requires |shifted| == |r|
    requires forall j :: 0 <= j < |shifted| ==> 0 < shifted[j] <= |bs| && r[j] == bs[shifted[j] - 1]
    requires forall j1, j2 :: 0 <= j1 < j2 < |shifted| ==> shifted[j1] < shifted[j2]
    requires forall i :: 0 < i <= |bs| ==> (TitleMatches(([b] + bs)[i].title, query) <==> i in shifted)
    ensures MatchPositions([b] + bs, query, [b] + r, [0] + shifted)
  {
    var all, out, idx := [b] + bs, [b] + r, [0] + shifted;
    forall j | 0 < j < |idx| ensures idx[j] < |all| && out[j] == all[idx[j]] {
      assert idx[j] == shifted[j - 1] && out[j] == r[j - 1];
    }
    forall i | 0 <= i < |all| ensures TitleMatches(all[i].title, query) <==> i in idx {
      assert i in idx <==> i == 0 || i in shifted;
    }
  }

  /** The positions after the first: position i of `[b] + bs` matches exactly
      when i - 1 was listed for `bs`. */
  lemma ShiftedPositions(b: Book, bs: seq<Book>, query: string, rest: seq<nat>, shifted: seq<nat>)
    requires forall i :: 0 <= i < |bs| ==> (TitleMatches(bs[i].title, query) <==> i in rest)
    requires forall i: nat :: i in shifted <==> i > 0 && i - 1 in rest
    ensures forall i :: 0 < i <= |bs| ==> (TitleMatches(([b] + bs)[i].title, query) <==> i in shifted)
  {
    forall i | 0 < i <= |bs| ensures TitleMatches(([b] + bs)[i].title, query) <==> i in shifted {
      assert ([b] + bs)[i] == bs[i - 1];
    }
  }

  /** Every position moved up by one. */
  lemma Shifted(rest: seq<nat>) returns (shifted: seq<nat>)
    ensures |shifted| == |rest|
    ensures forall j :: 0 <= j < |rest| ==> shifted[j] == rest[j] + 1
    ensures forall i: nat :: i in shifted <==> i > 0 && i - 1 in rest
  {
    shifted := seq(|rest|, j requires 0 <= j < |rest| => rest[j] + 1);
    forall i: nat | i > 0 && i - 1 in rest ensures i in shifted {
      var j :| 0 <= j < |rest| && rest[j] == i - 1;
      assert shifted[j] == i;
    }
  }

  /** An empty query matches every title, so it returns the whole list. */
  lemma {:induction false} EmptyQueryReturnsAll(bs: seq<Book>)
    ensures SearchByTitle(bs, "") == bs
  {
    if bs != [] {
      assert Lower("") == "";
      assert TitleMatches(bs[0].title, "");
      EmptyQueryReturnsAll(bs[1..]);
      assert [bs[0]] + bs[1..] == bs;
    }
  }

  /** For instance, the query "dune" finds a book titled "Dune Messiah" and
      not one titled "Foundation". */
  lemma DuneExample(dune: Book, foundation: Book)
    requires dune.title == "Dune Messiah" && foundation.title == "Foundation"
    ensures SearchByTitle([dune, foundation], "dune") == [dune]
  {
    DuneMessiahMatches();
    FoundationDoesNotMatch();
    assert TitleMatches(dune.title, "dune") && !TitleMatches(foundation.title, "dune");
    assert [dune, foundation][1..] == [foundation];
  }

  /** The position `search_by_isbn` stops at: the first book with that ISBN. */
  function FirstIsbnIndex(bs: seq<Book>, isbn: string): (r: Option<nat>)
    ensures r.None? <==> forall k :: 0 <= k < |bs| ==> bs[k].isbn != isbn
    ensures r.Some? ==> r.value < |bs| && bs[r.value].isbn == isbn
    ensures r.Some? ==> forall k :: 0 <= k < r.value ==> bs[k].isbn != isbn
  {
    if bs == [] then None
    else if bs[0].isbn == isbn then Some(0)
    else match FirstIsbnIndex(bs[1..], isbn)
      case None => None
      case Some(i) => Some(i + 1)
  }

  /** What the search action of the command loop reports. */
  datatype SearchResult =
    | FoundByIsbn(book: Book)
    | FoundByTitle(matches: seq<Book>)
    | NothingFound

  /** Appending an object not yet in the list keeps the objects from
      position `n` on pairwise distinct. */
  lemma AppendKeepsDistinct(bs: seq<Book>, n: nat, b: Book)
    requires n <= |bs| && b !in bs
    requires forall p, q :: n <= p < q < |bs| ==> bs[p] != bs[q]
    ensures forall p, q :: n <= p < q < |bs| + 1 ==> (bs + [b])[p] != (bs + [b])[q]
  {
  }

  class LibraryInventory {
    var books: seq<Book>
    /** The storage file at the program's fixed path. */
    var file: StoredFile
    /** Whether writing the storage file succeeds; a failed save is only logged. */
    var writable: bool

    /** Starts empty and loads from storage (`__init__` calling `load_books`). */
    constructor (stored: StoredFile, writable: bool)
      ensures this.writable == writable
      ensures forall k :: 0 <= k < |books| ==> fresh(books[k])
      ensures forall i, j :: 0 <= i < j < |books| ==> books[i] != books[j]
      ensures stored.Stored? ==> file == stored && Records(books) == DecodePrefix(stored.items)
      ensures (stored.Missing? || stored.Corrupt?) ==>
                books == [] && file == if writable then Stored([]) else stored
      ensures stored.Unreadable? ==> books == [] && file == stored
    {
      books := [];
      file := stored;
      this.writable := writable;
      new;
      LoadBooks();
    }

    /** `add_book`: appends at the end; nothing is saved by this call. */
    method AddBook(b: Book)
      modifies this`books
      ensures books == old(books) + [b]
      ensures Records(books) == old(Records(books)) + [b.Fields()]
    {
      books := books + [b];
    }

    /** `search_by_isbn`: a linear scan returning the first book with that ISBN. */
    method SearchByIsbn(isbn: string) returns (found: Option<Book>)
      ensures found.None? <==> forall k :: 0 <= k < |books| ==> books[k].isbn != isbn
      ensures found.Some? ==> FirstIsbnIndex(books, isbn).Some?
                              && found.value == books[FirstIsbnIndex(books, isbn).value]
    {
      var i := 0;
      while i < |books|
        invariant 0 <= i <= |books|
        invariant forall k :: 0 <= k < i ==> books[k].isbn != isbn
      {
        if books[i].isbn == isbn {
          return Some(books[i]);
        }
        i := i + 1;
      }
      return None;
    }

    /** `save_books`: overwrites the file with every book, in order; when the
        write fails the file is left as it was. */
    method SaveBooks()
      modifies this`file
      ensures file == if writable then Stored(EncodeAll(Records(books))) else old(file)
    {
      if writable {
        file := Stored(EncodeAll(Records(books)));
      }
    }

    /** `load_books`: a missing file is created by saving; a corrupt one is
        overwritten by saving the books held so far; an unreadable one changes
        nothing; otherwise one new book is appended per entry, in file order,
        until an entry lacks a key. */
    method LoadBooks()
      modifies this
      ensures writable == old(writable)
      ensures old(file).Stored? ==>
                file == old(file)
                && |books| >= |old(books)| && books[..|old(books)|] == old(books)
                && (forall k :: |old(books)| <= k < |books| ==> fresh(books[k]))
                && (forall i, j :: |old(books)| <= i < j < |books| ==> books[i] != books[j])
                && Records(books) == old(Records(books)) + DecodePrefix(old(file).items)
      ensures !old(file).Stored? ==> books == old(books)
      ensures (old(file).Missing? || old(file).Corrupt?) ==>
                file == if writable then Stored(EncodeAll(Records(books))) else old(file)
      ensures old(file).Unreadable? ==> file == old(file)
    {
      match file {
        case Missing => SaveBooks();
        case Corrupt => SaveBooks();
        case Unreadable =>
        case Stored(items) => AppendDecoded(items);
      }
    }

    /** The reconstruction loop of `load_books`: a new book per entry, appended
        in file order, until an entry lacks one of the four keys. */
    method AppendDecoded(items: seq<Dict>)
      modifies this`books
      ensures |books| >= |old(books)| && books[..|old(books)|] == old(books)
      ensures forall k :: |old(books)| <= k < |books| ==> fresh(books[k])
      ensures forall i, j :: |old(books)| <= i < j < |books| ==> books[i] != books[j]
      ensures Records(books) == old(Records(books)) + DecodePrefix(items)
    {
      ghost var before, loaded := Records(books), [];
      var n0, i := |books|, 0;
      while i < |items| && DecodeRecord(items[i]).Some?
        invariant 0 <= i <= |items| && |loaded| == i && |books| == n0 + i
        invariant books[..n0] == old(books)
        invariant forall k :: n0 <= k < |books| ==> fresh(books[k])
        invariant forall p, q :: n0 <= p < q < |books| ==> books[p] != books[q]
        invariant forall k :: 0 <= k < |books| ==> books[k].Fields() == (before + loaded)[k]
        invariant forall k :: 0 <= k < i ==> DecodeRecord(items[k]) == Some(loaded[k])
      {
        var r := DecodeRecord(items[i]).value;
        var b := new Book(r.title, r.author, r.isbn, r.status);
        AppendKeepsDistinct(books, n0, b);
        books := books + [b];
        loaded := loaded + [r];
        i := i + 1;
      }
      DecodePrefixExactly(items, loaded, i);
      RecordsPointwise(books, before + loaded);
    }

    /** Adding from the command loop: a new available book is appended and the
        inventory saved. */
    method AddNewBook(title: string, author: string, isbn: string)
      modifies this`books, this`file
      ensures |books| == |old(books)| + 1 && books[..|old(books)|] == old(books)
      ensures fresh(books[|books| - 1])
      ensures Records(books) == old(Records(books)) + [BookRecord(title, author, isbn, Available)]
      ensures books[|books| - 1].IsAvailable()
      ensures file == if writable then Stored(EncodeAll(Records(books))) else old(file)
    {
      ghost var before := Records(books);
      var b := new Book(title, author, isbn);
      AddBook(b);
      ghost var after := Records(books);
      assert after == before + [BookRecord(title, author, isbn, Available)];
      SaveBooks();
      assert Records(books) == after;
    }

    /** Issuing from the command loop: only the first book with the ISBN is ever
        tried. It fails when no book has the ISBN or that first one is already
        issued (even if a later duplicate is not); then nothing changes and
        nothing is saved. On success only that book object becomes issued and the
        inventory is saved. */
    method IssueByIsbn(isbn: string) returns (ok: bool)
      modifies this`file, books
      ensures books == old(books) && writable == old(writable)
      ensures ok <==> FirstIsbnIndex(books, isbn).Some?
                      && old(books[FirstIsbnIndex(books, isbn).value].status) != Issued
      ensures forall k :: 0 <= k < |books| ==>
                books[k].status == if ok && books[k] == books[FirstIsbnIndex(books, isbn).value]
                                   then Issued else old(books[k].status)
      ensures file == if ok && writable then Stored(EncodeAll(Records(books))) else old(file)
    {
      var found := SearchByIsbn(isbn);
      if found.None? {
        return false;
      }
      ok := found.value.Issue();
      if ok {
        SaveBooks();
      }
    }

    /** Returning from the command loop: as issuing, with the first book with the
        ISBN made available, and rejected when it already is. */
    method ReturnByIsbn(isbn: string) returns (ok: bool)
      modifies this`file, books
      ensures books == old(books) && writable == old(writable)
      ensures ok <==> FirstIsbnIndex(books, isbn).Some?
                      && old(books[FirstIsbnIndex(books, isbn).value].status) != Available
      ensures forall k :: 0 <= k < |books| ==>
                books[k].status == if ok && books[k] == books[FirstIsbnIndex(books, isbn).value]
                                   then Available else old(books[k].status)
      ensures file == if ok && writable then Stored(EncodeAll(Records(books))) else old(file)
    {
      var found := SearchByIsbn(isbn);
      if found.None? {
        return false;
      }
      ok := found.value.ReturnBook();
      if ok {
        SaveBooks();
      }
    }

    /** Searching from the command loop: an exact ISBN hit wins; only when there
        is none are titles searched. */
    method Search(query: string) returns (result: SearchResult)
      ensures FirstIsbnIndex(books, query).Some? ==>
                result == FoundByIsbn(books[FirstIsbnIndex(books, query).value])
      ensures FirstIsbnIndex(books, query).None? && SearchByTitle(books, query) != [] ==>
                result == FoundByTitle(SearchByTitle(books, query))
      ensures FirstIsbnIndex(books, query).None? && SearchByTitle(books, query) == [] ==>
                result == NothingFound
    {
      var found := SearchByIsbn(query);
      if found.Some? {
        return FoundByIsbn(found.value);
      }
      var matches := SearchByTitle(books, query);
      if matches != [] {
        return FoundByTitle(matches);
      }
      return NothingFound;
    }
  }

  /** Saving and then starting a new inventory from the saved file gives the
      same books, field for field and in order, as new objects. */
  method ReloadAfterSave(inv: LibraryInventory) returns (reloaded: LibraryInventory)
    requires inv.writable
    modifies inv`file
    ensures fresh(reloaded)
    ensures Records(reloaded.books) == Records(inv.books)
  {
    inv.SaveBooks();
    LoadAfterSave(Records(inv.books));
    reloaded := new LibraryInventory(inv.file, true);
  }

  /** Duplicate ISBNs after a load: the stored entry `d` appears twice, so two
      distinct books share its ISBN. Issuing by that ISBN tries only the first,
      and the second keeps the status it was loaded with. */
  method IssueLoadedDuplicate(d: Dict) returns (inv: LibraryInventory, ok: bool)
    requires d.Keys == {TitleKey, AuthorKey, IsbnKey, StatusKey}
    ensures |inv.books| == 2 && inv.books[0] != inv.books[1]
    ensures ok <==> d[StatusKey] != Issued
    ensures inv.books[0].status == Issued
    ensures inv.books[1].status == d[StatusKey]
  {
    inv := new LibraryInventory(Stored([d, d]), true);
    assert DecodePrefix([d, d]) == [DecodeRecord(d).value, DecodeRecord(d).value] by {
      DecodePrefixExactly([d, d], [DecodeRecord(d).value, DecodeRecord(d).value], 2);
    }
    assert inv.books[0].isbn == d[IsbnKey];
    ok := inv.IssueByIsbn(d[IsbnKey]);
  }
}
