# Library circulation and fines, modelled in Dafny

This project models the circulation core of a small library manager written in C++ (`main.cpp`):

- the book catalog;
- each patron's borrowing ledger and fine balance;
- the per-role borrowing rules (student, faculty, librarian);
- the borrow transaction that ties a ledger to the catalog;
- the patron directory's add and remove rules;
- the comma-separated row formats of the book, ledger and patron stores.

The clock is a parameter. Each read of `time(0)` in the program is a timestamp parameter (whole seconds).
Two operations read the clock twice, and take two timestamps:

- The borrow transaction checks eligibility at `now` (`main.cpp:265` through `calculateFines`, or `main.cpp:416`). It then waits for the book id to be typed in. The loan is recorded at `loanNow` (`main.cpp:259`). The new record is borrowed at `loanNow`, not at `now`.
- `returnBook` computes the late-return surcharge at `now` (`main.cpp:283`). The recomputation that ends the return reads the clock again, at `recomputeNow` (`main.cpp:295` through `main.cpp:265`).

Nothing relates the timestamps to each other: the model does not assume the clock only moves forward.

## Layout

| file | module | models |
|---|---|---|
| `Wrappers.dfy` | `Wrappers` | `Option`, standing for a null pointer or an end iterator |
| `Dates.dfy` | `Dates` | `daysBetween` over integers |
| `Catalog.dfy` | `Catalog` | `Book` and the `Library` class (find, add, remove, status update) |
| `Ledger.dfy` | `Ledger` | `BorrowRecord` and the `Account` class (borrow, fine recomputation, return, open loans, payment) |
| `Policy.dfy` | `Policy` | the `Role` datatype, eligibility per role, and the `canBorrow` checks |
| `Circulation.dfy` | `Circulation` | the borrow transaction of the student and faculty menus |
| `Csv.dfy` | `Csv` | splitting a line into fields as `getline(ss, field, ',')` does; decimal text; `stoi`/`stol` |
| `Formats.dfy` | `Formats` | the book row and the ledger row, and their round trips |
| `Directory.dfy` | `Directory` | the `UserManager` map, role normalisation, the patron row |

## How the model reads the program

- The `Library` and `Account` objects update their members in place, so they are classes.
  - `books`, `records` and `users` are `seq` or `map` fields that the methods reassign.
  - Each method's `ensures` gives the whole new state in terms of the old one.
  - That new state is stated through specification functions (`FirstMatch`, `Without`, `WithStatus`, `Fines`, `OpenBooks`, `FirstOpen`). The lemmas about those functions carry the properties.
- `findBook` returns a pointer that the callers write through. Here `FindBook` returns the position of the book, and `SetStatus` writes the status at that position.
- `daysBetween` divides a `double` and truncates it to `int`. For whole-second timestamps that is the absolute difference divided by 86400, rounded down. The model computes it that way over unbounded integers.
- The `canBorrow` virtual call becomes a `match` on the closed `Role` datatype. There is one method per role that has a check: `StudentCanBorrow` changes the balance, `FacultyCanBorrow` only reads.
- A book's status is kept as text. The store can hold any status, and the code compares against `"Available"`.

## Behaviour of the code that the model keeps

- **The return surcharge is lost.** `returnBook` adds 10 per overdue day to the balance (`main.cpp:284-287`). It then calls `calculateFines(true)` (`main.cpp:295`), which overwrites the balance from the loans still open.
  - So after a return the balance is the student-rate fine of the remaining open loans (`Account.ReturnBook`, `Ledger.FinesAfterClose`).
  - Returning the only open loan leaves nothing owed, however late it was (`Ledger.LastReturnOwesNothing`).
  - A student who returns their only loan five days late therefore owes 0, not 50.
- **A return recomputes at the student rate for every role.** For a faculty member this is the only place a non-zero fine arises. The faculty menu's own recomputation at the rate 0 is menu code and is not modelled.
- **A student's payments are recomputed away.** `Student::canBorrow` overwrites the balance from the ledger before checking it. `StudentCanBorrow` and `Eligible` depend only on the records, not on the cached balance.
- **The faculty check ignores direction.** The check uses the unsigned day distance. A loan due more than 30 days in the future blocks borrowing just as one 31 days overdue does (`Policy.FacultyFutureDueBlocks`). A loan made by the program lasts at most 30 days, so this arises only from stored records or a clock that went back.
- **Book ids are not checked for uniqueness.** `addBook` appends even when the id is already in use. A later lookup then finds the older book (`Catalog.AppendThenFind`). There is no duplicate-id error.
- **A payment is not validated.** A negative amount raises the balance. Any amount leaves it at zero or above.
- **Empty trailing fields are lost.** A book with an empty status, and no comma in any text field, writes a row that reads back with six fields. That row is ignored on loading (`Formats.EmptyStatusRowIgnored`).

## Model

| member | source | states |
|---|---|---|
| `Dates.DaysBetween` | main.cpp:19 | the whole number of days between two timestamps in either order: the largest d with d*86400 at most their distance |
| `Catalog.FirstMatch` | main.cpp:182-186 | the position of the first book with the id, with no earlier book carrying it; none exactly when no book carries it |
| `Catalog.Library.constructor` | main.cpp:147 | the catalog starts with the books read from the book store |
| `Catalog.Library.FindBook` | main.cpp:182-186 | the linear search returns exactly the first book with the id, or none |
| `Catalog.Library.AddBook` | main.cpp:188-203 | appends one available book with the given fields and changes nothing else; no uniqueness check |
| `Catalog.AppendThenFind` | main.cpp:200 | after an append, a lookup of the new id finds the new book, unless an older book already had that id, in which case it still finds the older one |
| `Catalog.Without` | main.cpp:205-210 | removal never lengthens the catalog, and every book left is an old book with a different id |
| `Catalog.WithoutKeepsOthers` | main.cpp:205-210 | every book with a different id survives the removal |
| `Catalog.WithoutAppend` | main.cpp:205-210 | removal distributes over concatenation, so the surviving books keep their relative order |
| `Catalog.WithoutUnchangedIff` | main.cpp:205-216 | removal leaves the catalog unchanged if and only if no book carries the id |
| `Catalog.RemovedNotFound` | main.cpp:205-216 | after removal a lookup of the id finds nothing |
| `Catalog.Library.RemoveBook` | main.cpp:205-216 | the new catalog is the old one minus every book with the id; it reports a removal exactly when some book had the id |
| `Catalog.WithStatus` | main.cpp:290-291 | only the first book with the id gets the new status, and every other book and field is unchanged; with no such book the catalog is unchanged |
| `Catalog.Library.SetStatus` | main.cpp:375 | writes the status of one book and nothing else |
| `Ledger.Charge` | main.cpp:268-273 | a record's charge is a multiple of 10, and positive exactly for a student's open loan at least one whole day past due |
| `Ledger.Fines` | main.cpp:264-276 | the recomputed balance is never negative and is 0 for a non-student whatever the ledger |
| `Ledger.FinesPositiveIff` | main.cpp:264-276 | the recomputed balance is positive if and only if the patron is a student with an open loan at least one whole day past its due date |
| `Ledger.FinesAppend` | main.cpp:268-273 | appending a record adds exactly that record's charge to the recomputed balance |
| `Ledger.BorrowAddsNoFine` | main.cpp:258-262 | a loan made at now for a non-negative term adds nothing to the balance recomputed at now |
| `Ledger.FinesAfterClose` | main.cpp:289-295 | closing an open loan lowers the recomputed balance by exactly that loan's charge |
| `Ledger.LastReturnOwesNothing` | main.cpp:284-295 | returning the only open loan leaves a recomputed balance of 0 however late it was, so the return surcharge does not survive |
| `Ledger.OpenBooks` | main.cpp:301-307 | the open-loan list is no longer than the ledger, and an id is in it exactly when some unreturned record has that id |
| `Ledger.OpenBooksAppend` | main.cpp:301-307 | the open loans of a concatenated ledger are those of its parts, in ledger order |
| `Ledger.Closed` | main.cpp:289 | the ledger keeps its length; only the closed record changes, and only its returned flag, which becomes set |
| `Ledger.OpenBooksAfterClose` | main.cpp:289 | marking an open loan returned takes exactly its entry out of the open-loan list, keeps the other open loans in ledger order, and lowers the count by one |
| `Ledger.FirstOpen` | main.cpp:279-280 | the position of the first unreturned record for the book, with no earlier one; none exactly when there is no open loan of it |
| `Ledger.Account.constructor` | main.cpp:223-244 | a new account holds the stored records and owes nothing |
| `Ledger.Account.BorrowBook` | main.cpp:258-262 | appends exactly one open record for the book, borrowed at now and due the given number of days later; earlier records and the balance are unchanged |
| `Ledger.Account.CalculateFines` | main.cpp:264-276 | the balance and the returned value become Fines of the unchanged records; calling it again at the same now gives the same value |
| `Ledger.Account.ReturnBook` | main.cpp:278-299 | with no open loan of the book it fails and changes neither store; otherwise it closes only the first open loan, marks the first catalog book with that id available if there is one, and leaves the balance equal to the student-rate Fines of the new ledger at the second clock reading |
| `Ledger.Account.GetCurrentBooks` | main.cpp:301-307 | returns the ids of the unreturned records in ledger order |
| `Ledger.Account.GetCurrentBorrowedCount` | main.cpp:309-311 | returns the length of that list |
| `Ledger.Account.PayFine` | main.cpp:313-314 | the balance becomes the old balance minus the amount, clamped at 0, so it is never negative and an overpayment leaves 0 |
| `Policy.LoanDays` | main.cpp:374 | the loan term of a role that borrows (15 days for a student here, 30 for faculty at main.cpp:452) is positive and at most the 30-day faculty window |
| `Policy.Eligible` | main.cpp:336-348 | the borrowing decision per role; a patron it admits is never a librarian and has fewer than 5 books out |
| `Policy.StudentEligibleIff` | main.cpp:336-348 | a student may borrow if and only if fewer than 3 books are out and no open loan is a whole day past due |
| `Policy.StudentCanBorrow` | main.cpp:336-348 | overwrites the balance with the freshly recomputed student fines and answers Eligible for a student; the records are unchanged |
| `Policy.FacultyCanBorrow` | main.cpp:410-427 | answers true if and only if fewer than 5 books are out and every open loan is at most 30 days away from its due date |
| `Policy.FacultyBoundary` | main.cpp:416-425 | an open loan exactly 30 days overdue still lets faculty borrow; 31 days does not |
| `Policy.FacultyFutureDueBlocks` | main.cpp:419-420 | an open loan due 31 days in the future also blocks a faculty borrow, because the distance is unsigned |
| `Policy.CanBorrow` | main.cpp:482 | answers per role, false for a librarian; only a student's check changes the account, and only its balance |
| `Circulation.Borrow` | main.cpp:369-383 | refused exactly when the role is not eligible, and then the book must exist and be available; on success exactly one record, made at the second clock reading with the role's term, is appended and the first book with the id is marked borrowed, otherwise neither store changes; a student's balance is recomputed either way |
| `Csv.Split` | main.cpp:165 | no field read from a line holds a comma, and there are never more fields than characters |
| `Csv.SplitJoin` | main.cpp:165 | splitting fields joined by commas gives them back when none holds a comma and the last is not empty |
| `Csv.TrailingEmptyFieldLost` | main.cpp:165 | for any fields that read back, appending an empty last field gives the same fields back: the empty field is lost |
| `Csv.ParseDigits` | main.cpp:168 | stoi reads a field made only of digits as their decimal value |
| `Csv.ParseIntText` | main.cpp:168 | reading the decimal text of any integer with stoi gives that integer, whatever non-digit text follows |
| `Formats.BookCsv` | main.cpp:142-145 | a book whose text fields hold no comma and whose status is not empty is written as a row that splits into its seven fields |
| `Formats.ParseBook` | main.cpp:161-169 | a row is ignored exactly when it does not split into seven fields, and every book read has comma-free text fields |
| `Formats.BookRoundTrip` | main.cpp:142-169 | a book row written by getCSV reads back as the same book when no text field holds a comma and the status is not empty |
| `Formats.EmptyStatusRowIgnored` | main.cpp:161-170 | a book with an empty status and no comma in any text field writes a row that loading ignores |
| `Formats.RecordRow` | main.cpp:249-250 | every record is written as a row that splits into its four number fields |
| `Formats.ParseRecord` | main.cpp:232-240 | a row is ignored exactly when it does not split into four fields, and is read exactly when it has four fields that stoi can all read as numbers |
| `Formats.RecordRoundTrip` | main.cpp:232-250 | every ledger row written by saveRecords reads back as the same record |
| `Directory.NormaliseRole` | main.cpp:587-604 | a role word is accepted exactly when its lower-case form is one of the three role words, and then the stored role name is that form capitalised |
| `Directory.NormaliseRoleIff` | main.cpp:587-604 | a role word is accepted and chooses a role if and only if it spells that role's name in any mix of cases |
| `Directory.UserRow` | main.cpp:625 | a patron whose name holds no comma is written as a row that splits into id, name and role name |
| `Directory.ParseUser` | main.cpp:538-551 | a row read as a patron has three fields, the id is what stoi reads from the first, the role's name is the third field exactly, and the name holds no comma |
| `Directory.UserRoundTrip` | main.cpp:538-551 | a patron row reads back as the same id, name and role when the name holds no comma |
| `Directory.UserManager.constructor` | main.cpp:520-523 | the directory starts with the stored patrons |
| `Directory.UserManager.AddUser` | main.cpp:573-607 | an id already in use is refused, and a role word naming no role is refused; both leave the directory unchanged. A new id with a valid role word is always added, and only that id changes, with the normalised role |
| `Directory.UserManager.RemoveUser` | main.cpp:609-619 | reports not found exactly when the id is absent; the directory loses exactly that id |

## Left out

- File persistence: `loadData`, `saveData`, `saveRecords`, the reading loop of the `Account` constructor, `loadUsers`, `saveAllUsers` and `initializeDefaultUsers`. The stores are external. Their single-row formats are modelled as pure functions in `Formats` and `Directory`. The constructors take the stored contents as parameters.
- Console input and output: `display`, `displayAll`, `viewAccount`, the messages, the prompts inside `addBook` and `addUser`, the menu loops of `showMenu`, `authenticate` and `main`.
- The recomputations the menu loops make on every pass (`calculateFines(true)` for students, `calculateFines(false)` for faculty) are part of the menus and are left out.
- The appended line `addUser` writes to the directory store is persistence and is left out.
- The wall clock: `now` is a parameter.
- `difftime` works in `double`. The model uses the exact integer distance, which is the same for whole-second timestamps.
- Integer width: `int` and `time_t` are unbounded here. Overflow in `borrowDays * 86400`, in the fine sums and in `stoi`/`stol` (its `out_of_range` exception) is not modelled.
- A `stoi`/`stol` call on a field with no leading number throws, and the program then stops. The model reports that row as `Malformed` instead.
- Ownership through `unique_ptr<User>`: the directory maps an id to a name and a role. Each patron's `Account` is a separate object.
- Literal seed data: the ten default books and nine default patrons.
- Locales: white space, digits and case are those of the C locale.
