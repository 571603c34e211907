/** A patron's borrowing ledger: the loan records in the order they were made,
    and the cached fine balance. */
module Ledger {
  import opened Wrappers
  import opened Dates
  import Catalog

  /** Fine per whole overdue day charged to a student by the fine recomputation. */
  const StudentFinePerDay: int := 10
  /** Fine per whole overdue day added when an overdue book is handed back. */
  const ReturnSurchargePerDay: int := 10

  datatype BorrowRecord = BorrowRecord(bookId: int, borrowDate: int, dueDate: int, returned: bool)

  /** What one record adds to the balance when fines are recomputed at `now`. */
  function Charge(r: BorrowRecord, isStudent: bool, now: int): (c: nat)
    ensures c % StudentFinePerDay == 0
    ensures c > 0 <==> isStudent && !r.returned && now - r.dueDate >= SecondsPerDay
  {
    if !r.returned && now > r.dueDate then
      (if isStudent then DaysBetween(now, r.dueDate) * StudentFinePerDay else 0)
    else 0
  }

  /** The balance a recomputation at `now` produces: the charges of all records, in ledger order. */
  function Fines(rs: seq<BorrowRecord>, isStudent: bool, now: int): (f: nat)
    ensures !isStudent ==> f == 0
  {
    if |rs| == 0 then 0
    else Fines(rs[..|rs| - 1], isStudent, now) + Charge(rs[|rs| - 1], isStudent, now)
  }

  /** Something is owed after a recomputation exactly when the patron is a
      student with an open loan at least one whole day past its due date. */
  lemma {:induction false} FinesPositiveIff(rs: seq<BorrowRecord>, isStudent: bool, now: int)
    ensures Fines(rs, isStudent, now) > 0 <==>
      isStudent && exists i :: 0 <= i < |rs| && !rs[i].returned && now - rs[i].dueDate >= SecondsPerDay
  {
    if |rs| > 0 {
      var n := |rs| - 1;
      var init := rs[..n];
      assert forall i :: 0 <= i < n ==> init[i] == rs[i];
      FinesPositiveIff(init, isStudent, now);
    }
  }

  /** The book ids of the open loans, in ledger order. */
  function OpenBooks(rs: seq<BorrowRecord>): (ids: seq<int>)
    ensures |ids| <= |rs|
    ensures forall x :: x in ids <==> exists i :: 0 <= i < |rs| && !rs[i].returned && rs[i].bookId == x
  {
    if |rs| == 0 then []
    else
      var init := rs[..|rs| - 1];
      assert forall i :: 0 <= i < |init| ==> init[i] == rs[i];
      OpenBooks(init) + (if rs[|rs| - 1].returned then [] else [rs[|rs| - 1].bookId])
  }

  /** The position of the first open loan of `bookId`, if any. */
  function FirstOpen(rs: seq<BorrowRecord>, bookId: int): (r: Option<nat>)
    ensures r.Some? ==> r.value < |rs| && rs[r.value].bookId == bookId && !rs[r.value].returned
    ensures r.Some? ==> forall j :: 0 <= j < r.value ==> !(rs[j].bookId == bookId && !rs[j].returned)
    ensures r.None? <==> forall j :: 0 <= j < |rs| ==> !(rs[j].bookId == bookId && !rs[j].returned)
  {
    if |rs| == 0 then None
    else if rs[0].bookId == bookId && !rs[0].returned then Some(0)
    else match FirstOpen(rs[1..], bookId)
      case None => None
      case Some(k) => Some(k + 1)
  }

  /** The ledger with the loan at position `k` marked as returned. */
  function Closed(rs: seq<BorrowRecord>, k: nat): (r: seq<BorrowRecord>)
    requires k < |rs|
    ensures |r| == |rs| && r[k].returned
    ensures r[k].bookId == rs[k].bookId && r[k].borrowDate == rs[k].borrowDate && r[k].dueDate == rs[k].dueDate
    ensures forall i :: 0 <= i < |rs| && i != k ==> r[i] == rs[i]
  {
    rs[k := rs[k].(returned := true)]
  }

  /** Appending a record adds exactly its own charge. */
  lemma FinesAppend(rs: seq<BorrowRecord>, r: BorrowRecord, isStudent: bool, now: int)
    ensures Fines(rs + [r], isStudent, now) == Fines(rs, isStudent, now) + Charge(r, isStudent, now)
  {
    assert (rs + [r])[..|rs|] == rs;
  }

  /** A loan made at `now` for a non-negative number of days owes nothing at `now`,
      so borrowing does not change what a recomputation yields. */
  lemma BorrowAddsNoFine(rs: seq<BorrowRecord>, bookId: int, days: int, isStudent: bool, now: int)
    requires days >= 0
    ensures Fines(rs + [BorrowRecord(bookId, now, now + days * SecondsPerDay, false)], isStudent, now)
         == Fines(rs, isStudent, now)
  {
    FinesAppend(rs, BorrowRecord(bookId, now, now + days * SecondsPerDay, false), isStudent, now);
  }

  /** Closing an open loan removes exactly that loan's charge from the recomputed balance. */
  lemma {:induction false} FinesAfterClose(rs: seq<BorrowRecord>, k: nat, isStudent: bool, now: int)
    requires k < |rs| && !rs[k].returned
    ensures Fines(Closed(rs, k), isStudent, now) + Charge(rs[k], isStudent, now) == Fines(rs, isStudent, now)
  {
    var n := |rs| - 1;
    var rs' := Closed(rs, k);
    assert rs'[n] == if k == n then rs[n].(returned := true) else rs[n];
    if k == n {
      assert rs'[..n] == rs[..n];
      assert Charge(rs'[n], isStudent, now) == 0;
    } else {
      assert rs'[..n] == Closed(rs[..n], k);
      FinesAfterClose(rs[..n], k, isStudent, now);
    }
  }

  /** When the loan handed back is the only open one, the recomputation that ends
      a return leaves nothing owed, however late the book came back: the
      surcharge added during the return does not survive. */
  lemma LastReturnOwesNothing(rs: seq<BorrowRecord>, k: nat, now: int)
    requires k < |rs| && !rs[k].returned
    requires forall j :: 0 <= j < |rs| && j != k ==> rs[j].returned
    ensures Fines(Closed(rs, k), true, now) == 0
  {
    assert forall j :: 0 <= j < |rs| ==> Closed(rs, k)[j].returned;
    FinesPositiveIff(Closed(rs, k), true, now);
  }

  /** A one-record ledger has an open loan exactly when the record is not returned. */
  lemma OpenBooksSingle(r: BorrowRecord)
    ensures OpenBooks([r]) == if r.returned then [] else [r.bookId]
  {
    assert [r][..0] == [];
  }

  /** Marking an open loan returned takes exactly its entry out of the open-loan
      list and leaves the other open loans in order, so the count drops by one. */
  lemma {:induction false} OpenBooksAfterClose(rs: seq<BorrowRecord>, k: nat)
    requires k < |rs| && !rs[k].returned
    ensures OpenBooks(rs) == OpenBooks(rs[..k]) + [rs[k].bookId] + OpenBooks(rs[k + 1..])
    ensures OpenBooks(Closed(rs, k)) == OpenBooks(rs[..k]) + OpenBooks(rs[k + 1..])
    ensures |OpenBooks(Closed(rs, k))| + 1 == |OpenBooks(rs)|
  {
    var before, after := rs[..k], rs[k + 1..];
    var closed := rs[k].(returned := true);
    OpenBooksSingle(rs[k]);
    OpenBooksSingle(closed);
    assert rs == (before + [rs[k]]) + after;
    OpenBooksAppend(before + [rs[k]], after);
    OpenBooksAppend(before, [rs[k]]);
    assert Closed(rs, k) == (before + [closed]) + after;
    OpenBooksAppend(before + [closed], after);
    OpenBooksAppend(before, [closed]);
  }

  /** The open loans of a concatenated ledger are those of its parts, in order. */
  lemma {:induction false} OpenBooksAppend(rs: seq<BorrowRecord>, ts: seq<BorrowRecord>)
    ensures OpenBooks(rs + ts) == OpenBooks(rs) + OpenBooks(ts)
  {
    if |ts| > 0 {
      var n := |ts| - 1;
      assert (rs + ts)[..|rs| + n] == rs + ts[..n];
      OpenBooksAppend(rs, ts[..n]);
    } else {
      assert rs + ts == rs;
    }
  }

  /** The ledger and fine balance of one patron. */
  class Account {
    const userId: int
    var records: seq<BorrowRecord>
    var fineBalance: int

    /** The balance is never negative. */
    ghost predicate Valid()
      reads this
    {
      fineBalance >= 0
    }

    /** An account over the records read from the patron's ledger store, owing nothing. */
    constructor (uid: int, stored: seq<BorrowRecord>)
      ensures Valid()
      ensures userId == uid && records == stored && fineBalance == 0
    {
      userId := uid;
      records := stored;
      fineBalance := 0;
    }

    /** Appends a loan of `bookId` made at `now`, due `borrowDays` days later. */
    method BorrowBook(bookId: int, borrowDays: int, now: int)
      requires Valid()
      modifies this
      ensures Valid()
      ensures records == old(records) + [BorrowRecord(bookId, now, now + borrowDays * SecondsPerDay, false)]
      ensures fineBalance == old(fineBalance)
    {
      records := records + [BorrowRecord(bookId, now, now + borrowDays * SecondsPerDay, false)];
    }

    /** Recomputes the balance from the open overdue loans and overwrites it. */
    method CalculateFines(isStudent: bool, now: int) returns (fines: int)
      modifies this
      ensures Valid()
      ensures records == old(records)
      ensures fines == fineBalance == Fines(records, isStudent, now)
    {
      fines := 0;
      var i := 0;
      while i < |records|
        invariant 0 <= i <= |records|
        invariant records == old(records)
        invariant fines == Fines(records[..i], isStudent, now)
      {
        assert records[..i + 1] == records[..i] + [records[i]];
        FinesAppend(records[..i], records[i], isStudent, now);
        if !records[i].returned && now > records[i].dueDate {
          var overdueDays := DaysBetween(now, records[i].dueDate);
          fines := fines + if isStudent then overdueDays * StudentFinePerDay else 0;
        }
        i := i + 1;
      }
      assert records[..i] == records;
      fineBalance := fines;
    }

    /** Closes the first open loan of `bookId`, marks the book available in `lib`
        when the catalog still has it, and recomputes the balance at the student rate.
        The surcharge for a late return is added first and then overwritten by the
        recomputation. The clock is read twice: `now` for the surcharge and
        `recomputeNow` inside the recomputation. */
    method ReturnBook(bookId: int, lib: Catalog.Library, now: int, recomputeNow: int) returns (ok: bool)
      requires Valid()
      modifies this, lib
      ensures Valid()
      ensures ok <==> FirstOpen(old(records), bookId).Some?
      ensures !ok ==> records == old(records) && fineBalance == old(fineBalance) && lib.books == old(lib.books)
      ensures ok ==> records == Closed(old(records), FirstOpen(old(records), bookId).value)
      ensures ok ==> lib.books == Catalog.WithStatus(old(lib.books), bookId, Catalog.Available)
      ensures ok ==> fineBalance == Fines(records, true, recomputeNow)
    {
      var i := 0;
      while i < |records| && !(records[i].bookId == bookId && !records[i].returned)
        invariant 0 <= i <= |records|
        invariant forall j :: 0 <= j < i ==> !(records[j].bookId == bookId && !records[j].returned)
      {
        i := i + 1;
      }
      if i == |records| {
        return false;
      }
      if now > records[i].dueDate {
        var overdueDays := DaysBetween(now, records[i].dueDate);
        fineBalance := fineBalance + overdueDays * ReturnSurchargePerDay;
      }
      records := Closed(records, i);
      var found := lib.FindBook(bookId);
      if found.Some? {
        lib.SetStatus(found.value, Catalog.Available);
      }
      var _ := CalculateFines(true, recomputeNow);
      ok := true;
    }

    /** The ids of the books currently out on loan, in ledger order. */
    method GetCurrentBooks() returns (current: seq<int>)
      ensures current == OpenBooks(records)
    {
      current := [];
      var i := 0;
      while i < |records|
        invariant 0 <= i <= |records|
        invariant current == OpenBooks(records[..i])
      {
        assert records[..i + 1][..i] == records[..i];
        if !records[i].returned {
          current := current + [records[i].bookId];
        }
        i := i + 1;
      }
      assert records[..i] == records;
    }

    /** How many books are out on loan. */
    method GetCurrentBorrowedCount() returns (n: int)
      ensures n == |OpenBooks(records)|
    {
      var current := GetCurrentBooks();
      n := |current|;
    }

    /** Takes `amount` off the balance, never going below zero. The amount
        is not checked, so a negative payment raises the balance. */
    method PayFine(amount: int)
      modifies this
      ensures Valid()
      ensures records == old(records)
      ensures fineBalance == if old(fineBalance) - amount > 0 then old(fineBalance) - amount else 0
    {
      fineBalance := if fineBalance - amount > 0 then fineBalance - amount else 0;
    }
  }
}
