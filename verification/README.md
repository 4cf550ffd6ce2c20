# Library loans and fines — a Dafny model

This project models the circulation rules of a small Laravel library
application:

- **The fine engine** (`FineService`). It computes a loan's fine at 0.25 per
  whole day overdue. It reconciles the `fines` table against the overdue loans
  (`updateAllFines`). It tells whether a borrower owes money on a book still
  out (`hasPendingUnpaidFines`). It pays all of a borrower's fines at once
  (`payAllBorrowerFines`). It lists fines joined with their loan and borrower,
  ordered by card id, then loan id.
- **Checkout** (`BookLoanController::checkout`). It validates and trims the
  ISBN and card id, then runs four eligibility gates in order: the borrower
  exists; no unpaid fine; fewer than three active loans; the ISBN is not out.
  It then inserts a loan with id max+1, due fourteen days after the real date.
- **Borrower registration** (`BorrowerController::store`). It reduces the phone
  number and the SSN to digits. It validates the four fields and refuses an
  SSN already on file. It creates the borrower under the next zero-padded,
  six-digit card id.
- **The fines page** (`FineController`). It reconciles the fines, lists them,
  and groups them by borrower with a running total. A pay request is checked
  and then handed to the fine engine.
- **The simulated clock** (`DateSimulatorController`). It keeps an operator's
  date override in the session. The fine engine reads that date in place of
  the real one.

Modules:

| module | file | what it holds |
|---|---|---|
| `Wrappers` | `wrappers.dfy` | `Option`, `Result` |
| `Text` | `text.dfy` | the PHP and MySQL string primitives the code relies on: `trim`, `preg_replace('/\D+/', '', …)`, `(int)`/`(string)`, `str_pad`, `CAST(… AS UNSIGNED)`, string order |
| `Calendar` | `calendar.dfy` | Gregorian dates, day numbers, the `Y-m-d` text form and its round trips |
| `Records` | `records.dfy` | the `book_loans`, `fines` and `borrower` rows, and the `Database` class holding the three tables |
| `DateSimulation` | `date_simulator.dfy` | the `DateSimulator` class: `getCurrent`, `setDate`, `resetDate` |
| `FineService` | `fine_service.dfy` | the fine engine |
| `BookLoans` | `book_loans.dfy` | checkout |
| `Borrowers` | `borrowers.dfy` | borrower registration |
| `FineController` | `fine_controller.dfy` | the fines page and the pay action |

Representation choices:

- Dates are integer day numbers (`Records.Date`). The session stores the
  `Y-m-d` text, as the application does, and `Calendar` converts it.
- Money is integer cents. Every amount is a multiple of 25 cents, so the
  application's two-decimal floats and strings are exact.
- Each table is a field of `Records.Database`. `book_loans` is a `seq<Loan>` in
  storage order. `fines` is a `map` keyed by `Loan_id`. `borrower` is a
  `seq<Borrower>`.
- Each service or controller operation is a method that takes the database.
  `Database.Valid()` is the invariant they all keep: loan ids, card ids and
  SSNs are unique, and every fine belongs to a loan.
- The real date (`Carbon::today()`, `now()`) is a parameter, `today`, wherever
  the code reads it.

The model follows the code as written, including where its names or comments
suggest otherwise:

- The fine of a returned loan is measured at its `Date_in`, not at the
  current date (`app/Services/FineService.php:41-45`).
- The checkout gate refuses a borrower with any unpaid fine, on a returned book
  or not (`app/Http/Controllers/BookLoanController.php:52-59`). This is a
  different predicate from `hasPendingUnpaidFines`, which only counts fines on
  books still out. `FineService.UnpaidFineOnReturnedBookIsNotPending` shows a
  borrower on whom the two disagree.
- A new loan's `Date_out` and `Due_date` come from the real date, never the
  simulated one (`app/Http/Controllers/BookLoanController.php:84-85`).
- A loan is active exactly when `Date_in` is null, in every query. The
  `'0000-00-00'` empty-date sentinel is not treated as "not returned".

## Model

| member | source | states |
|---|---|---|
| Text.Trim | app/Http/Controllers/BookLoanController.php:40-41 | PHP `trim`: the result is no longer than the input, begins and ends with a non-whitespace character, and is empty exactly when the input is all whitespace |
| Text.TrimContent | app/Http/Controllers/BookLoanController.php:40-41 | the trimmed text is a contiguous piece of the input with only whitespace before and after it; with Trim's contract this fixes the result |
| Text.TrimExample | app/Http/Controllers/BookLoanController.php:40-41 | `trim(" ab\t")` is "ab" |
| Text.FilledIffNotBlank | app/Http/Controllers/BookLoanController.php:24-30 | Laravel's `required` fails exactly on a missing input or one made only of whitespace |
| Text.TrimIdempotent | app/Http/Controllers/BookLoanController.php:40-41 | trimming twice is trimming once |
| Text.StripNonDigits | app/Http/Controllers/BorrowerController.php:25 | `preg_replace('/\D+/', '')` keeps every digit, with its multiplicity, and nothing else; digit-only text is unchanged |
| Text.StripNonDigitsAppend | app/Http/Controllers/BorrowerController.php:25 | stripping works character by character: the digits of `a + b` are the digits of `a` followed by those of `b`, so their order is kept |
| Text.StripNonDigitsExample | app/Http/Controllers/BorrowerController.php:25 | "2a1" becomes "21" |
| Text.StripNonDigitsIdempotent | app/Http/Controllers/BorrowerController.php:39 | reducing to digits twice is reducing once |
| Text.NatToString | app/Http/Controllers/BorrowerController.php:78 | `(string)$n` is a digit string without leading zeros that reads back as `n` |
| Text.PadLeft | app/Http/Controllers/BorrowerController.php:78 | `str_pad(…, STR_PAD_LEFT)` keeps the text as a suffix, fills the front with the pad character, and reaches the width unless the text is already longer |
| Text.CastUnsignedOfDigits | app/Http/Controllers/BorrowerController.php:75 | MySQL `CAST(… AS UNSIGNED)` of a digit string is its decimal value |
| Text.CastUnsignedExamples | app/Http/Controllers/BorrowerController.php:75 | the cast reads the leading digits only: "12a3" gives 12 and "abc" gives 0 |
| Text.PaddedNumberRoundTrip | app/Http/Controllers/BorrowerController.php:75-78 | casting a zero-padded number back gives the number |
| Text.StringLeqTotal | app/Services/FineService.php:170 | the order on card ids is total |
| Text.StringLeqTransitive | app/Services/FineService.php:170 | the order on card ids is transitive |
| Text.StringLeqAntisymmetric | app/Services/FineService.php:170 | the order on card ids is antisymmetric |
| Calendar.DayNumberFollowsCalendar | app/Services/FineService.php:43-49 | a date before another in the calendar has a smaller day number, so comparing day numbers is comparing dates |
| Calendar.NextDay | app/Http/Controllers/BookLoanController.php:84-85 | the following calendar day comes after the date, and exists for every date but 9999-12-31 |
| Calendar.NextDayNumber | app/Http/Controllers/BookLoanController.php:84-85 | the following calendar day has the next day number, so adding 14 to a day number is `addDays(14)` and subtracting day numbers is `diffInDays` |
| Calendar.FormatYmd | app/Http/Controllers/DateSimulatorController.php:28 | `format('Y-m-d')` is ten characters with dashes at positions 4 and 7 |
| Calendar.FormatThenParse | app/Http/Controllers/DateSimulatorController.php:28 | every date is read back from its own `Y-m-d` text |
| Calendar.ParseThenFormat | app/Http/Controllers/DateSimulatorController.php:24-28 | text that `ParseYmd` accepts (the `date_format:Y-m-d` rule) is exactly the text of the date it denotes, so re-formatting it changes nothing |
| Calendar.ParsedTextIsNotBlank | app/Http/Controllers/DateSimulatorController.php:25 | text in `Y-m-d` form always passes `required` |
| Calendar.BlankTextIsNotParsed | app/Http/Controllers/DateSimulatorController.php:25 | blank text never passes `date_format:Y-m-d` |
| DateSimulation.DateSimulator.GetCurrent | app/Http/Controllers/DateSimulatorController.php:13-17 | the override when one is set, else the real date, always as valid `Y-m-d` text |
| DateSimulation.DateSimulator.SetDate | app/Http/Controllers/DateSimulatorController.php:22-36 | missing or blank input fails `required`; other input not in `Y-m-d` form fails `date_format`; both leave the override unchanged; valid input becomes the override and is returned unchanged |
| DateSimulation.DateSimulator.ResetDate | app/Http/Controllers/DateSimulatorController.php:41-51 | no override remains, and the returned date and `GetCurrent` are the real date |
| FineService.GetCurrentDate | app/Services/FineService.php:19-26 | the fine engine's date is the day of the simulator's current date: the override if set, else the real date |
| FineService.CalculateFineAmount | app/Services/FineService.php:32-60 | the fine is 25 cents per day that the reference date (`ReferenceDate`: `Date_in` if returned, else the current date) lies past the due date; it is a multiple of 25 and positive exactly when that date is past due |
| FineService.ReturnedFineIgnoresClock | app/Services/FineService.php:41-45 | a returned loan's fine does not depend on the current or simulated date |
| FineService.ReturnFixesFine | app/Services/FineService.php:39-50 | returning a book on day d fixes its fine at what it owed on day d |
| FineService.ActiveFineAccruesDaily | app/Services/FineService.php:46-56 | while a book is out and past due, each further day adds exactly 25 cents |
| FineService.IsOverdue | app/Services/FineService.php:76-93 | the overdue query selects exactly the loans with a nonzero fine, so the "no fine" skip never fires for a selected loan |
| FineService.OverdueLoans | app/Services/FineService.php:76-86 | the overdue query returns only overdue loans |
| FineService.OverdueLoansFromTable | app/Services/FineService.php:76-86 | each overdue loan is a row of the loan table, at a position no earlier than its own |
| FineService.OverdueLoansInOrder | app/Services/FineService.php:76-86 | the overdue loans keep table order: any two of them come from two table rows in the same order |
| FineService.OverdueLoansComplete | app/Services/FineService.php:76-86 | every overdue loan of the table is returned |
| FineService.OverdueLoansUnique | app/Services/FineService.php:76-86 | the overdue loans have distinct ids, all ids of the table |
| FineService.ReconcileUntouched | app/Services/FineService.php:90-140 | a fine whose loan is not scanned is left as it was |
| FineService.ReconcileAt | app/Services/FineService.php:90-140 | each scanned loan's fine ends up as `FineAfter` says: untouched when nothing is owed, created unpaid with the computed amount when missing, frozen when paid, else the computed amount |
| FineService.ReconcileKeepsPaidFines | app/Services/FineService.php:107-111 | a paid fine is never changed |
| FineService.ReconcileKeys | app/Services/FineService.php:127-134 | no fine row is removed, and rows are added only for scanned loans |
| FineService.ReconcileStaysValid | app/Services/FineService.php:127-134 | fines are created only for loans of the table, so every fine still belongs to a loan after the pass |
| FineService.ReconcileCreatedCountsRows | app/Services/FineService.php:127-134 | `created` is the number of rows added |
| FineService.ReconcileSettled | app/Services/FineService.php:113-126 | a pass over loans whose rows already hold the computed amount, or are paid, writes nothing and counts nothing |
| FineService.ReconcileIdempotent | app/Services/FineService.php:90-140 | a second pass on the same date returns created = 0 and updated = 0 and changes nothing |
| FineService.ReconcileCounts | app/Services/FineService.php:68-145 | `created` counts owed loans without a row; `updated` counts unpaid rows whose amount differed from the computed one |
| FineService.UpdateAllFines | app/Services/FineService.php:68-145 | the loop over the overdue loans leaves the fine table and both counters exactly as the reference pass `Reconcile` does; loans and borrowers are unchanged and the database stays valid |
| FineService.UpdateLoanFine | app/Services/FineService.php:91-140 | one iteration on the database: a missing fine is created unpaid, an unpaid fine whose amount differs is updated, a paid fine or a zero amount is left alone; the fine table and both counters end exactly as `ReconcileLoan` of the old ones, and loans and borrowers are unchanged |
| FineService.UpdateAllFinesEffect | app/Services/FineService.php:68-145 | after the pass, every loan's fine row is `FineAfter` of its old row, and rows belonging to no loan are unchanged |
| FineService.PendingFineFacts | app/Services/FineService.php:212-221 | a pending unpaid fine means the borrower has a book out and has an unpaid fine |
| FineService.PendingFineByLoan | app/Services/FineService.php:212-221 | `hasPendingUnpaidFines` holds exactly when some loan of the borrower with no `Date_in` carries an unpaid fine |
| FineService.UnpaidFineOnReturnedBookIsNotPending | app/Services/FineService.php:212-221 | an unpaid fine on a returned book blocks checkout but is not pending |
| FineService.PayFinesOf | app/Services/FineService.php:194-197 | the borrower's fines all become paid with their amounts kept, other fines are unchanged, no unpaid fine of the borrower remains, and the changed rows are exactly the borrower's unpaid fines |
| FineService.PayAllBorrowerFines | app/Services/FineService.php:179-207 | refused, with count 0 and nothing changed, exactly when the borrower has a book out; otherwise pays exactly the borrower's unpaid fines and returns their number |
| FineService.FindBorrower | app/Services/FineService.php:154 | the join finds the borrower with the loan's card id, or reports that there is none |
| FineService.JoinedRowsMembers | app/Services/FineService.php:152-168 | the joined rows (`JoinRow` per loan, collected by `JoinedRows`) are exactly the fines whose loan and borrower exist and that pass the unpaid-only filter |
| FineService.JoinedRowsDistinct | app/Services/FineService.php:152-168 | with unique loan ids, no two joined rows share a loan id: each fine is listed once |
| FineService.RowLeqTotal | app/Services/FineService.php:170-171 | any two rows are ordered by (Card_id, Loan_id) one way or the other |
| FineService.RowLeqTransitive | app/Services/FineService.php:170-171 | the (Card_id, Loan_id) order is transitive |
| FineService.InsertRow | app/Services/FineService.php:170-171 | inserting a row adds exactly that row |
| FineService.InsertRowSorted | app/Services/FineService.php:170-171 | inserting a row into a sorted listing keeps it sorted |
| FineService.SortRows | app/Services/FineService.php:170-172 | the listing is sorted by (Card_id, Loan_id) and holds the same rows |
| FineService.GetAllFinesByBorrower | app/Services/FineService.php:150-173 | the listing is sorted by (Card_id, Loan_id), holds the joined fines with their multiplicity (so, by `JoinedRowsDistinct`, each fine once), shows each fine's stored amount and paid flag, and holds only unpaid fines when asked to |
| FineService.SortedJoinMembers | app/Services/FineService.php:152-172 | ordering the joined rows by (Card_id, Loan_id) neither drops nor adds a row |
| Records.UnpaidFineByLoan | app/Http/Controllers/BookLoanController.php:52-55 | the unpaid-fine check (`HasUnpaidFine`) holds exactly when some loan of the borrower, returned or not, carries an unpaid fine |
| BookLoans.ActiveLoanCountPositive | app/Http/Controllers/BookLoanController.php:62-64 | the active-loan count (`ActiveLoanCount`) is positive exactly when the borrower has a loan with no `Date_in` |
| BookLoans.IsbnOnLoanCount | app/Http/Controllers/BookLoanController.php:71-73 | the availability query (`IsbnOnLoan`) finds the book out exactly when its active-loan count is at least one |
| BookLoans.MaxLoanId | app/Http/Controllers/BookLoanController.php:81 | `max('Loan_id')` is null exactly for an empty table, else an id of the table no smaller than any other |
| BookLoans.NextLoanId | app/Http/Controllers/BookLoanController.php:81-82 | the new id is 1 for an empty table, else one more than an existing id, and greater than every existing id |
| BookLoans.NextLoanIdExample | app/Http/Controllers/BookLoanController.php:81-82 | ids {1, 2, 5} give 6 |
| BookLoans.NextLoanIdIsFresh | app/Http/Controllers/BookLoanController.php:80-94 | adding a loan under the new id keeps loan ids unique |
| BookLoans.CheckoutGate | app/Http/Controllers/BookLoanController.php:45-79 | the gates let a checkout through exactly when the borrower exists, has no unpaid fine, has fewer than 3 active loans, and the book is not out; a refusal is never a validation error |
| BookLoans.CheckoutGateOrder | app/Http/Controllers/BookLoanController.php:45-79 | the gates run in order: borrower not found exactly when there is no borrower; unpaid fines exactly when the borrower exists and owes; too many loans exactly when the first two pass and 3 or more are out; book unavailable exactly when the first three pass and the ISBN is out |
| BookLoans.UnpaidFineBlocksCheckout | app/Http/Controllers/BookLoanController.php:52-59 | any unpaid fine on any of the borrower's loans, returned or not, refuses the checkout |
| BookLoans.NewLoanKeepsLimits | app/Http/Controllers/BookLoanController.php:62-78 | adding an active loan for a borrower under the limit and a book not out keeps at most 3 active loans per borrower and at most 1 per ISBN |
| BookLoans.GrantedCheckoutKeepsLimits | app/Http/Controllers/BookLoanController.php:62-96 | a checkout the gates let through keeps both loan limits |
| BookLoans.Checkout | app/Http/Controllers/BookLoanController.php:19-97 | a missing or blank ISBN, then card id, is refused before any lookup; otherwise the first failing gate on the trimmed inputs is returned with the tables unchanged; on success exactly one loan is appended, with the next id, the trimmed inputs, the real date, a due date 14 days later and no return date |
| BookLoans.CheckoutKeepsLimits | app/Http/Controllers/BookLoanController.php:62-96 | whatever the four request fields hold, checkout never breaks the loan limits |
| Borrowers.SanitizePhone | app/Http/Controllers/BorrowerController.php:22-33 | the phone is the last ten digits of the input, or all of them when there are fewer; None when there is no input or no digit; always 1 to 10 digits |
| Borrowers.SanitizePhoneIdempotent | app/Http/Controllers/BorrowerController.php:22-33 | a sanitised phone sanitises to itself |
| Borrowers.SanitizeSsn | app/Http/Controllers/BorrowerController.php:36-43 | the SSN is the input's digits; None when there is no input or no digit |
| Borrowers.FailedFields | app/Http/Controllers/BorrowerController.php:52-63 | a field is reported exactly when its rules fail: name and address required and at most 100 and 255 characters, SSN exactly 9 digits, phone absent or 7 to 10 digits |
| Borrowers.PhoneAccepted | app/Http/Controllers/BorrowerController.php:22-56 | the phone is accepted exactly when the input has no digit or at least seven; longer numbers are cut, never refused |
| Borrowers.SsnAccepted | app/Http/Controllers/BorrowerController.php:36-54 | the SSN is accepted exactly when the input holds exactly nine digits |
| Borrowers.MaxCardNumber | app/Http/Controllers/BorrowerController.php:75-76 | the numeric value of the largest card id, or 0: no smaller than any card id's value and equal to one of them unless 0 |
| Borrowers.NextCardId | app/Http/Controllers/BorrowerController.php:75-78 | the new card id is digits, at least 6 long, reads back as the largest value + 1, so it is numerically greater than and different from every existing card id |
| Borrowers.CardNumberExamples | app/Http/Controllers/BorrowerController.php:75 | "000001" and "000042" cast to 1 and 42 |
| Borrowers.MaxCardNumberExample | app/Http/Controllers/BorrowerController.php:75-76 | the largest numeric card id of {"000001", "000042"} is 42 |
| Borrowers.PaddedExample | app/Http/Controllers/BorrowerController.php:77-78 | 43 is padded on the left to "000043" |
| Borrowers.NextCardIdExample | app/Http/Controllers/BorrowerController.php:75-78 | card ids {"000001", "000042"} give "000043" |
| Borrowers.NewBorrowerKeepsKeys | app/Http/Controllers/BorrowerController.php:69-87 | a borrower under the next card id with an SSN not on file keeps card ids and SSNs unique |
| Borrowers.Store | app/Http/Controllers/BorrowerController.php:19-92 | every failing field is reported at once and nothing is inserted; otherwise an SSN on file is refused; otherwise exactly one borrower is appended under the next card id, with SSN and phone as integers, and the card id is returned |
| FineController.CardOrder | app/Http/Controllers/FineController.php:29-38 | the blocks' card ids are distinct |
| FineController.CardOrderMembers | app/Http/Controllers/FineController.php:29-38 | a block exists exactly for each card id among the rows |
| FineController.RowsOfMembers | app/Http/Controllers/FineController.php:39 | a borrower's rows are exactly the listing rows with that card id |
| FineController.GroupOf | app/Http/Controllers/FineController.php:30-40 | a block holds its borrower's rows in listing order, is named after its first row, and totals their amounts |
| FineController.Grouped | app/Http/Controllers/FineController.php:29-41 | one block per card id, in order of first appearance |
| FineController.FindGroup | app/Http/Controllers/FineController.php:31 | the `isset` lookup finds the block with the card id, or reports that there is none |
| FineController.GroupedStep | app/Http/Controllers/FineController.php:30-41 | one loop iteration: a row opens a new block at its card id's first appearance and otherwise joins its block, adding its amount to the total |
| FineController.GroupedStepNew | app/Http/Controllers/FineController.php:31-40 | a row whose card id has no block yet adds one block at the end, holding that row alone with its amount as total |
| FineController.GroupedStepExisting | app/Http/Controllers/FineController.php:39-40 | a row whose card id already has a block is appended to that block and its amount added to the total; every other block is unchanged |
| FineController.GroupByBorrower | app/Http/Controllers/FineController.php:29-41 | the loop builds exactly the reference grouping `Grouped` |
| FineController.GroupedPartitions | app/Http/Controllers/FineController.php:30-39 | every row lands in the block of its own card id and in no other block |
| FineController.GroupContents | app/Http/Controllers/FineController.php:32-40 | each block's rows are its borrower's rows in listing order, its total is their sum, and its name is its first row's |
| FineController.GroupsAddRow | app/Http/Controllers/FineController.php:39-40 | adding a row to a block adds one row and its amount to the sums over all blocks |
| FineController.GroupedKeepsEveryRow | app/Http/Controllers/FineController.php:30-41 | no row is lost or duplicated: the blocks hold as many rows as the listing, and their totals add up to the listing's total |
| FineController.ShowPaidOnlyForOne | app/Http/Controllers/FineController.php:15 | paid fines are shown exactly when `show_paid` is "1"; a missing parameter defaults to "0" and hides them |
| FineController.FinesForm | app/Http/Controllers/FineController.php:13-47 | paid fines are shown only for `show_paid` = "1"; the fines are reconciled first, and the page is the grouping of the listing of the reconciled table |
| FineController.PayFines | app/Http/Controllers/FineController.php:52-72 | a missing, empty or "0" card id (`IsFalsy`, PHP's `!$cardId`) is refused; then a pending unpaid fine refuses; then payment is refused exactly when a book is out; otherwise exactly the borrower's unpaid fines are paid and counted; every refusal leaves the fines unchanged |

## Left out

- Logging, flash messages, redirects and the JSON-or-redirect choice are not modelled. Each operation returns a `Result` whose error names the refusal.
- Transactions and concurrency are not modelled. Each operation is one atomic state change, so the max+1 races on `Loan_id` and `Card_id` are not represented.
- Exceptions from the database (a failed `save`, `create` or `update`, and the `try`/`catch` around them) are not modelled. Every write succeeds.
- Floating-point money: amounts are integer cents. The `decimal(8,2)` column limit is not modelled, because cents are unbounded.
- Years outside 0000–9999 are not modelled, because `Y-m-d` text has four-digit years. Real and simulated dates are calendar dates in that range. Stored loan dates are day numbers.
- MySQL collation is not modelled. Card id and ISBN comparisons are exact, and `ORDER BY Card_id` compares character codes rather than using a case-insensitive, trailing-space-insensitive collation.
- Laravel's global request middleware (trimming strings, turning empty strings into null) is not modelled. Inputs reach the controllers as given.
- Text.CastUnsigned: MySQL's leading-space skipping and its cap at 18446744073709551615 are not modelled; the cast reads leading digits only and is unbounded, which agrees with MySQL on the digit-only card ids the code writes.
- Laravel's `string` rule is not modelled, because inputs are modelled as text. The `max` rule counts characters of the text as given.
- Check-in is not modelled: no controller or service here sets `Date_in`, so it is given state on each loan.
- The `'0000-00-00'` empty-date sentinel is not modelled, because no modelled query treats it as "not returned".
- Blade views, `BookController` (catalogue search), routes and the Eloquent models are not modelled. The models serve only as row shapes.
- `FineController.FinesForm`: the `try`/`catch` around `updateAllFines` is not modelled, because reconciliation cannot fail in the model.
- `DateSimulation.SimulatorScenario` only checks one sequence of calls: setting a date, setting it again, then resetting.
