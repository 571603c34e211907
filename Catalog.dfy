/** The book catalog: a list of books kept in insertion order. */
module Catalog {
  import opened Wrappers

  const Available: string := "Available"
  const Borrowed: string := "Borrowed"

  /** A catalog entry. The status is free text as stored; the program writes
      only `Available` and `Borrowed`. */
  datatype Book = Book(id: int, title: string, author: string, isbn: string,
                       publisher: string, year: int, status: string)

  /** The position of the first book carrying `id`, if any. */
  function FirstMatch(books: seq<Book>, id: int): (r: Option<nat>)
    ensures r.Some? ==> r.value < |books| && books[r.value].id == id
    ensures r.Some? ==> forall j :: 0 <= j < r.value ==> books[j].id != id
    ensures r.None? <==> forall j :: 0 <= j < |books| ==> books[j].id != id
  {
    if |books| == 0 then None
    else if books[0].id == id then Some(0)
    else match FirstMatch(books[1..], id)
      case None => None
      case Some(k) => Some(k + 1)
  }

  /** The catalog with every book carrying `id` taken out. */
  function Without(books: seq<Book>, id: int): (r: seq<Book>)
    ensures |r| <= |books|
    ensures forall b :: b in r ==> b in books && b.id != id
  {
    if |books| == 0 then []
    else if books[0].id == id then Without(books[1..], id)
    else [books[0]] + Without(books[1..], id)
  }

  /** The catalog with the status of the first book carrying `id` replaced,
      or unchanged when no book carries it. */
  function WithStatus(books: seq<Book>, id: int, status: string): (r: seq<Book>)
    ensures |r| == |books|
    ensures FirstMatch(books, id).None? ==> r == books
    ensures FirstMatch(books, id).Some? ==>
      var j := FirstMatch(books, id).value;
      r[j].status == status &&
      r[j] == books[j].(status := status) &&
      forall i :: 0 <= i < |books| && i != j ==> r[i] == books[i]
  {
    match FirstMatch(books, id)
    case None => books
    case Some(j) => books[j := books[j].(status := status)]
  }

  /** Every book without `id` survives the removal. */
  lemma {:induction false} WithoutKeepsOthers(books: seq<Book>, id: int, b: Book)
    requires b in books && b.id != id
    ensures b in Without(books, id)
  {
    if books[0] != b {
      WithoutKeepsOthers(books[1..], id, b);
    }
  }

  /** Removal works piecewise, so the surviving books keep their relative order. */
  lemma {:induction false} WithoutAppend(s: seq<Book>, t: seq<Book>, id: int)
    ensures Without(s + t, id) == Without(s, id) + Without(t, id)
  {
    if |s| == 0 {
      assert s + t == t;
    } else {
      assert (s + t)[1..] == s[1..] + t;
      WithoutAppend(s[1..], t, id);
    }
  }

  /** Removal leaves the catalog as it was exactly when no book carries `id`. */
  lemma {:induction false} WithoutUnchangedIff(books: seq<Book>, id: int)
    ensures Without(books, id) == books <==> FirstMatch(books, id).None?
  {
    if |books| > 0 {
      WithoutUnchangedIff(books[1..], id);
      if books[0].id != id && Without(books[1..], id) != books[1..] {
        assert Without(books, id)[1..] == Without(books[1..], id);
      }
    }
  }

  /** After removal no lookup for `id` succeeds. */
  lemma RemovedNotFound(books: seq<Book>, id: int)
    ensures FirstMatch(Without(books, id), id).None?
  {
  }

  /** A book appended to the catalog is what a lookup of its id finds, unless an
      older book already carries that id (ids are not checked for uniqueness). */
  lemma {:induction false} AppendThenFind(books: seq<Book>, b: Book)
    ensures FirstMatch(books + [b], b.id) ==
      if FirstMatch(books, b.id).Some? then FirstMatch(books, b.id) else Some(|books|)
  {
    if |books| > 0 {
      assert (books + [b])[1..] == books[1..] + [b];
      AppendThenFind(books[1..], b);
    }
  }

  /** The in-memory catalog. */
  class Library {
    var books: seq<Book>

    /** A catalog holding the books read from the book store. */
    constructor (stored: seq<Book>)
      ensures books == stored
    {
      books := stored;
    }

    /** Linear search for the first book with `id`. */
    method FindBook(id: int) returns (r: Option<nat>)
      ensures r == FirstMatch(books, id)
    {
      var i := 0;
      while i < |books|
        invariant 0 <= i <= |books|
        invariant forall j :: 0 <= j < i ==> books[j].id != id
      {
        if books[i].id == id {
          return Some(i);
        }
        i := i + 1;
      }
      return None;
    }

    /** Appends a new book, available, without looking for an existing book with the same id. */
    method AddBook(id: int, title: string, author: string, isbn: string, publisher: string, year: int)
      modifies this
      ensures books == old(books) + [Book(id, title, author, isbn, publisher, year, Available)]
    {
      books := books + [Book(id, title, author, isbn, publisher, year, Available)];
    }

    /** Removes every book with `id`, keeping the order of the others; reports
        whether anything was removed. */
    method RemoveBook(id: int) returns (removed: bool)
      modifies this
      ensures books == Without(old(books), id)
      ensures removed <==> FirstMatch(old(books), id).Some?
    {
      var all := books;
      var kept: seq<Book> := [];
      var i := 0;
      removed := false;
      while i < |all|
        invariant 0 <= i <= |all|
        invariant kept == Without(all[..i], id)
        invariant removed <==> exists j :: 0 <= j < i && all[j].id == id
      {
        assert all[..i + 1] == all[..i] + [all[i]];
        WithoutAppend(all[..i], [all[i]], id);
        if all[i].id == id {
          removed := true;
        } else {
          kept := kept + [all[i]];
        }
        i := i + 1;
      }
      assert all[..i] == all;
      books := kept;
    }

    /** Overwrites the status of the book at position `i`, as the borrow and
        return flows do through the pointer `findBook` hands out. */
    method SetStatus(i: nat, status: string)
      requires i < |books|
      modifies this
      ensures books == old(books)[i := old(books)[i].(status := status)]
    {
      books := books[i := books[i].(status := status)];
    }
  }
}
