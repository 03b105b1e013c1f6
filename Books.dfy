/** One catalogue entry (`Book` in library.py) with its availability status
    and the flat four-key dictionary it is saved as. */
module Books {

  datatype Option<T> = None | Some(value: T)

  /** The two status values the program itself writes. The field is a plain
      string, so a status read back from storage may be anything else too. */
  const Available: string := "available"
  const Issued: string := "issued"

  /** The four fields of a book as plain values. */
  datatype BookRecord = BookRecord(title: string, author: string, isbn: string, status: string)

  /** A decoded JSON object of the storage file: key to string value. */
  type Dict = map<string, string>

  const TitleKey: string := "title"
  const AuthorKey: string := "author"
  const IsbnKey: string := "isbn"
  const StatusKey: string := "status"

  /** The dictionary `to_dict` builds from a book's fields. */
  function EncodeRecord(r: BookRecord): (d: Dict)
    ensures d.Keys == {TitleKey, AuthorKey, IsbnKey, StatusKey}
    ensures DecodeRecord(d) == Some(r)
  {
    map[TitleKey := r.title, AuthorKey := r.author, IsbnKey := r.isbn, StatusKey := r.status]
  }

  /** The four key look-ups `load_books` makes to rebuild a book from one
      stored entry; a missing key (a KeyError in the source) gives None. Keys
      other than the four are ignored. */
  function DecodeRecord(d: Dict): (r: Option<BookRecord>)
    ensures r.Some? <==> TitleKey in d && AuthorKey in d && IsbnKey in d && StatusKey in d
    ensures r.Some? ==> r.value.title == d[TitleKey] && r.value.author == d[AuthorKey]
                        && r.value.isbn == d[IsbnKey] && r.value.status == d[StatusKey]
  {
    if TitleKey in d && AuthorKey in d && IsbnKey in d && StatusKey in d then
      Some(BookRecord(d[TitleKey], d[AuthorKey], d[IsbnKey], d[StatusKey]))
    else
      None
  }

  /** The other direction of the round trip: a dictionary holding exactly the
      four keys is what `to_dict` writes for the book decoded from it. */
  lemma DecodeThenEncode(d: Dict)
    requires d.Keys == {TitleKey, AuthorKey, IsbnKey, StatusKey}
    ensures DecodeRecord(d).Some? && EncodeRecord(DecodeRecord(d).value) == d
  {
    var e := EncodeRecord(DecodeRecord(d).value);
    assert e.Keys == d.Keys;
    forall k | k in d ensures e[k] == d[k] {
      assert k == TitleKey || k == AuthorKey || k == IsbnKey || k == StatusKey;
    }
  }

  /** The one-line rendering of `__str__`: the four fields in order, separated
      by " | ", with the ISBN and the status labelled. */
  function Describe(r: BookRecord): (line: string)
    ensures |line| == |r.title| + |r.author| + |r.isbn| + |r.status| + 23
    ensures r.title <= line
    ensures line[|line| - |r.status|..] == r.status
    ensures line[|r.title|..|r.title| + 3] == " | "
    ensures line[|r.title| + 3..|r.title| + 3 + |r.author|] == r.author
    ensures line[|r.title| + 3 + |r.author|..|r.title| + 12 + |r.author|] == " | ISBN: "
    ensures line[|r.title| + 12 + |r.author|..|r.title| + 12 + |r.author| + |r.isbn|] == r.isbn
    ensures line[|line| - |r.status| - 11..|line| - |r.status|] == " | Status: "
  {
    r.title + " | " + r.author + " | ISBN: " + r.isbn + " | Status: " + r.status
  }

  class Book {
    // Only the status is ever reassigned after construction.
    const title: string
    const author: string
    const isbn: string
    var status: string

    /** `Book(title, author, isbn, status="available")`: no validation of any field. */
    constructor (title: string, author: string, isbn: string, status: string := Available)
      ensures Fields() == BookRecord(title, author, isbn, status)
      ensures status == Available ==> IsAvailable()
    {
      this.title := title;
      this.author := author;
      this.isbn := isbn;
      this.status := status;
    }

    function Fields(): BookRecord
      reads this
    {
      BookRecord(title, author, isbn, status)
    }

    /** `is_available`: true exactly for the status "available", so an
        available book is never one that issuing would reject. */
    predicate IsAvailable()
      reads this
      ensures IsAvailable() <==> status == Available
      ensures IsAvailable() ==> status != Issued
    {
      status == Available
    }

    /** Issuing is rejected only when the book is already issued; from any other
        status (including values other than the two known ones) it succeeds.
        Either way the book ends up issued. */
    method Issue() returns (ok: bool)
      modifies this
      ensures ok <==> old(status) != Issued
      ensures status == if ok then Issued else old(status)
      ensures status == Issued && !IsAvailable()
    {
      if status == Issued {
        return false;
      }
      status := Issued;
      return true;
    }

    /** Returning is rejected only when the book is already available; from any
        other status it succeeds. Either way the book ends up available. */
    method ReturnBook() returns (ok: bool)
      modifies this
      ensures ok <==> old(status) != Available
      ensures status == if ok then Available else old(status)
      ensures IsAvailable()
    {
      if status == Available {
        return false;
      }
      status := Available;
      return true;
    }
  }

  /** The fields of a list of books, position by position. */
  function Records(bs: seq<Book>): (rs: seq<BookRecord>)
    reads bs
    ensures |rs| == |bs|
    ensures forall k :: 0 <= k < |bs| ==> rs[k] == bs[k].Fields()
  {
    if bs == [] then [] else [bs[0].Fields()] + Records(bs[1..])
  }

  /** A list of books whose fields match `rs` position by position has
      exactly `rs` as its records. */
  lemma RecordsPointwise(bs: seq<Book>, rs: seq<BookRecord>)
    requires |bs| == |rs|
    requires forall k :: 0 <= k < |bs| ==> bs[k].Fields() == rs[k]
    ensures Records(bs) == rs
  {
  }

  /** Issuing a book twice in a row: the second attempt is always rejected and
      leaves the book issued. */
  method IssueTwice(b: Book) returns (first: bool, second: bool)
    modifies b
    ensures first <==> old(b.status) != Issued
    ensures !second && b.status == Issued
  {
    first := b.Issue();
    second := b.Issue();
  }

  /** Returning a book twice in a row: the second attempt is always rejected and
      leaves the book available. */
  method ReturnTwice(b: Book) returns (first: bool, second: bool)
    modifies b
    ensures first <==> old(b.status) != Available
    ensures !second && b.IsAvailable()
  {
    first := b.ReturnBook();
    second := b.ReturnBook();
  }
}
