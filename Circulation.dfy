/** The borrow transaction: the eligibility check, the catalog lookup, then the
    loan and the catalog update together. */
module Circulation {
  import opened Wrappers
  import opened Dates
  import opened Catalog
  import opened Ledger
  import opened Policy

  datatype BorrowOutcome =
    | Refused      // the role's check said no
    | UnknownBook  // no book carries the id
    | Unavailable  // the book's status is not "Available"
    | Lent         // the loan was recorded and the book marked borrowed

  /** A patron of `role` owning account `a` asks to borrow `bookId`. The clock is
      read twice, with the book id typed in between: `now` when eligibility is
      checked and `loanNow` when the loan is recorded. */
  method Borrow(role: Role, a: Account, lib: Library, bookId: int, now: int, loanNow: int)
    returns (outcome: BorrowOutcome)
    requires a.Valid()
    modifies a, lib
    ensures a.Valid()
    ensures outcome == Refused <==> !Eligible(role, old(a.records), now)
    ensures outcome == UnknownBook <==> Eligible(role, old(a.records), now) && FirstMatch(old(lib.books), bookId).None?
    ensures outcome == Unavailable <==>
      Eligible(role, old(a.records), now) && FirstMatch(old(lib.books), bookId).Some? &&
      old(lib.books)[FirstMatch(old(lib.books), bookId).value].status != Available
    ensures outcome != Lent ==> a.records == old(a.records) && lib.books == old(lib.books)
    ensures outcome == Lent ==>
      role != Librarian &&
      a.records == old(a.records) + [BorrowRecord(bookId, loanNow, loanNow + LoanDays(role) * SecondsPerDay, false)] &&
      lib.books == WithStatus(old(lib.books), bookId, Borrowed)
    ensures a.fineBalance == if role == Student then Fines(old(a.records), true, now) else old(a.fineBalance)
  {
    var eligible := CanBorrow(role, a, now);
    if !eligible {
      return Refused;
    }
    var found := lib.FindBook(bookId);
    if found.None? {
      return UnknownBook;
    }
    if lib.books[found.value].status != Available {
      return Unavailable;
    }
    a.BorrowBook(bookId, LoanDays(role), loanNow);
    lib.SetStatus(found.value, Borrowed);
    return Lent;
  }
}
