/** The row formats of the book store and of a patron's ledger store. */
module Formats {
  import opened Wrappers
  import opened Csv
  import opened Catalog
  import opened Ledger

  /** What reading one row gives: a value; a row ignored because it does not
      have the expected number of fields; or a row whose number field is not a
      number, which makes the read throw. */
  datatype Row<T> = Parsed(value: T) | Skipped | Malformed

  /** A book as one line of the book store: its seven fields joined by commas. */
  function BookCsv(b: Book): (row: string)
    ensures Writable(b) ==> Split(row) == BookFields(b)
  {
    if Writable(b) then SplitJoin(BookFields(b)); Join(BookFields(b))
    else Join(BookFields(b))
  }

  /** One line of the book store read back: seven fields, the first and sixth numbers. */
  function ParseBook(line: string): (r: Row<Book>)
    ensures r == Skipped <==> |Split(line)| != 7
    ensures r.Parsed? ==>
      NoComma(r.value.title) && NoComma(r.value.author) && NoComma(r.value.isbn) &&
      NoComma(r.value.publisher) && NoComma(r.value.status)
  {
    var f := Split(line);
    if |f| != 7 then Skipped
    else match (ParseInt(f[0]), ParseInt(f[5]))
      case (Some(id), Some(year)) => Parsed(Book(id, f[1], f[2], f[3], f[4], year, f[6]))
      case _ => Malformed
  }

  /** A loan record as one line of the ledger store: four numbers joined by
      commas, the flag written as 1 or 0. */
  function RecordRow(r: BorrowRecord): (row: string)
    ensures Split(row) == RecordFields(r)
  {
    SplitJoin(RecordFields(r));
    Join(RecordFields(r))
  }

  /** One line of the ledger store read back: four numbers, the last one a flag
      that is set when it is not zero. */
  function ParseRecord(line: string): (r: Row<BorrowRecord>)
    ensures r == Skipped <==> |Split(line)| != 4
    ensures r.Parsed? <==>
      |Split(line)| == 4 && ParseInt(Split(line)[0]).Some? && ParseInt(Split(line)[1]).Some? &&
      ParseInt(Split(line)[2]).Some? && ParseInt(Split(line)[3]).Some?
  {
    var f := Split(line);
    if |f| != 4 then Skipped
    else
      var id, borrowed, due, flag := ParseInt(f[0]), ParseInt(f[1]), ParseInt(f[2]), ParseInt(f[3]);
      if id.Some? && borrowed.Some? && due.Some? && flag.Some? then
        Parsed(BorrowRecord(id.value, borrowed.value, due.value, flag.value != 0))
      else Malformed
  }

  predicate Writable(b: Book)
  {
    NoComma(b.title) && NoComma(b.author) && NoComma(b.isbn) && NoComma(b.publisher) &&
    NoComma(b.status) && b.status != ""
  }

  function BookFields(b: Book): seq<string>
  {
    [IntText(b.id), b.title, b.author, b.isbn, b.publisher, IntText(b.year), b.status]
  }

  function RecordFields(r: BorrowRecord): seq<string>
  {
    [IntText(r.bookId), IntText(r.borrowDate), IntText(r.dueDate), if r.returned then "1" else "0"]
  }

  lemma ParseIntOfText(n: int)
    ensures ParseInt(IntText(n)) == Some(n)
  {
    ParseIntText(n, "");
    assert IntText(n) + "" == IntText(n);
  }

  lemma ParseBookOf(line: string, f: seq<string>, id: int, year: int)
    requires Split(line) == f && |f| == 7
    requires ParseInt(f[0]) == Some(id) && ParseInt(f[5]) == Some(year)
    ensures ParseBook(line) == Parsed(Book(id, f[1], f[2], f[3], f[4], year, f[6]))
  {
  }

  /** A book written to the store reads back field for field when no text
      field holds a comma and the status is not empty. */
  lemma BookRoundTrip(b: Book)
    requires Writable(b)
    ensures ParseBook(BookCsv(b)) == Parsed(b)
  {
    var f := BookFields(b);
    SplitJoin(f);
    ParseIntOfText(b.id);
    ParseIntOfText(b.year);
    ParseBookOf(BookCsv(b), f, b.id, b.year);
    assert Book(b.id, f[1], f[2], f[3], f[4], b.year, f[6]) == b;
  }

  lemma ParseFlagText(returned: bool)
    ensures ParseInt(if returned then "1" else "0") == Some(if returned then 1 else 0)
  {
    ParseIntOfText(1);
    ParseIntOfText(0);
    assert IntText(1) == "1" && IntText(0) == "0";
  }

  lemma ParseRecordOf(line: string, f: seq<string>, id: int, borrowed: int, due: int, flag: int)
    requires Split(line) == f && |f| == 4
    requires ParseInt(f[0]) == Some(id) && ParseInt(f[1]) == Some(borrowed)
    requires ParseInt(f[2]) == Some(due) && ParseInt(f[3]) == Some(flag)
    ensures ParseRecord(line) == Parsed(BorrowRecord(id, borrowed, due, flag != 0))
  {
  }

  /** Every loan record written to the store reads back exactly. */
  lemma RecordRoundTrip(r: BorrowRecord)
    ensures ParseRecord(RecordRow(r)) == Parsed(r)
  {
    var f := RecordFields(r);
    var flag := if r.returned then 1 else 0;
    assert f[3] != "";
    SplitJoin(f);
    assert Split(RecordRow(r)) == f;
    ParseIntOfText(r.bookId);
    ParseIntOfText(r.borrowDate);
    ParseIntOfText(r.dueDate);
    ParseFlagText(r.returned);
    ParseRecordOf(RecordRow(r), f, r.bookId, r.borrowDate, r.dueDate, flag);
    assert BorrowRecord(r.bookId, r.borrowDate, r.dueDate, flag != 0) == r;
  }

  /** A book whose status is empty does not survive the store: its row is ignored on reading. */
  lemma EmptyStatusRowIgnored(b: Book)
    requires NoComma(b.title) && NoComma(b.author) && NoComma(b.isbn) && NoComma(b.publisher)
    requires b.status == ""
    ensures ParseBook(BookCsv(b)) == Skipped
  {
    var f := BookFields(b);
    assert f == f[..6] + [""];
    TrailingEmptyFieldLost(f[..6]);
  }
}
