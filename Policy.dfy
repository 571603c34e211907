/** Borrowing rules per patron role. */
module Policy {
  import opened Dates
  import opened Ledger

  datatype Role = Student | Faculty | Librarian

  /** Most books a student may have out at once. */
  const StudentLimit: int := 3
  /** Most books a faculty member may have out at once. */
  const FacultyLimit: int := 5
  /** Largest distance in days between now and an open loan's due date that still lets faculty borrow. */
  const FacultyOverdueDays: int := 30

  /** Loan length in days for the roles that borrow. */
  function LoanDays(role: Role): (days: nat)
    requires role != Librarian
    ensures 0 < days <= FacultyOverdueDays
  {
    if role == Student then 15 else 30
  }

  /** Whether a patron of `role` with ledger `rs` may borrow at `now`. For a
      student the fines are those freshly recomputed from the ledger, not the
      cached balance. */
  predicate Eligible(role: Role, rs: seq<BorrowRecord>, now: int)
    ensures Eligible(role, rs, now) ==> role != Librarian && |OpenBooks(rs)| < FacultyLimit
  {
    match role
    case Student => Fines(rs, true, now) == 0 && |OpenBooks(rs)| < StudentLimit
    case Faculty =>
      |OpenBooks(rs)| < FacultyLimit &&
      forall i :: 0 <= i < |rs| && !rs[i].returned ==> DaysBetween(now, rs[i].dueDate) <= FacultyOverdueDays
    case Librarian => false
  }

  /** A student may borrow exactly when fewer than three books are out and no
      open loan is a full day past its due date. */
  lemma StudentEligibleIff(rs: seq<BorrowRecord>, now: int)
    ensures Eligible(Student, rs, now) <==>
      |OpenBooks(rs)| < StudentLimit &&
      forall i :: 0 <= i < |rs| && !rs[i].returned ==> now - rs[i].dueDate < SecondsPerDay
  {
    FinesPositiveIff(rs, true, now);
  }

  /** A faculty loan exactly thirty days away from its due date still allows
      borrowing; thirty-one days does not. */
  lemma FacultyBoundary(bookId: int, borrowDate: int, now: int)
    ensures Eligible(Faculty, [BorrowRecord(bookId, borrowDate, now - 30 * SecondsPerDay, false)], now)
    ensures !Eligible(Faculty, [BorrowRecord(bookId, borrowDate, now - 31 * SecondsPerDay, false)], now)
  {
    assert DaysBetween(now, now - 30 * SecondsPerDay) == 30;
    assert DaysBetween(now, now - 31 * SecondsPerDay) == 31;
  }

  /** The faculty check measures distance in either direction, so a loan due
      more than thirty days in the future blocks borrowing as well. */
  lemma FacultyFutureDueBlocks(bookId: int, borrowDate: int, now: int)
    ensures !Eligible(Faculty, [BorrowRecord(bookId, borrowDate, now + 31 * SecondsPerDay, false)], now)
  {
    assert DaysBetween(now, now + 31 * SecondsPerDay) == 31;
  }

  /** The student check: recompute the fines (overwriting the balance), refuse
      if anything is owed, then refuse at three open loans. */
  method StudentCanBorrow(a: Account, now: int) returns (ok: bool)
    modifies a
    ensures a.Valid()
    ensures a.records == old(a.records)
    ensures a.fineBalance == Fines(a.records, true, now)
    ensures ok == Eligible(Student, a.records, now)
  {
    var _ := a.CalculateFines(true, now);
    if a.fineBalance > 0 {
      return false;
    }
    var count := a.GetCurrentBorrowedCount();
    if count >= StudentLimit {
      return false;
    }
    return true;
  }

  /** The faculty check: refuse at five open loans, then refuse if any open
      loan is more than thirty days away from its due date. */
  method FacultyCanBorrow(a: Account, now: int) returns (ok: bool)
    ensures ok == Eligible(Faculty, a.records, now)
  {
    var count := a.GetCurrentBorrowedCount();
    if count >= FacultyLimit {
      return false;
    }
    var rs := a.records;
    var i := 0;
    while i < |rs|
      invariant 0 <= i <= |rs|
      invariant forall j :: 0 <= j < i && !rs[j].returned ==> DaysBetween(now, rs[j].dueDate) <= FacultyOverdueDays
    {
      if !rs[i].returned {
        var overdueDays := DaysBetween(now, rs[i].dueDate);
        if overdueDays > FacultyOverdueDays {
          return false;
        }
      }
      i := i + 1;
    }
    return true;
  }

  /** Dispatch on the role; librarians never borrow. Only the student check
      changes the account, and only its balance. */
  method CanBorrow(role: Role, a: Account, now: int) returns (ok: bool)
    requires a.Valid()
    modifies a
    ensures a.Valid()
    ensures ok == Eligible(role, old(a.records), now)
    ensures a.records == old(a.records)
    ensures a.fineBalance == if role == Student then Fines(a.records, true, now) else old(a.fineBalance)
  {
    match role
    case Student => ok := StudentCanBorrow(a, now);
    case Faculty => ok := FacultyCanBorrow(a, now);
    case Librarian => ok := false;
  }
}
