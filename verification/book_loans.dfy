/**
 * Checkout: validate and trim the request, run the four eligibility gates in
 * order, then insert a new loan with the next loan id, due two weeks after
 * the real date.
 */
module BookLoans {
  import opened Wrappers
  import opened Text
  import opened Calendar
  import opened Records
  import FineService

  const MaxActiveLoans: nat := 3
  const LoanPeriodDays: nat := 14

  datatype CheckoutError =
    | IsbnRequired
    | CardIdRequired
    | BorrowerNotFound
    | UnpaidFines
    | TooManyActiveLoans
    | BookUnavailable

  predicate BorrowerExists(borrowers: seq<Borrower>, cardId: string) {
    exists i :: 0 <= i < |borrowers| && borrowers[i].cardId == cardId
  }

  /** The borrower's active loans (`whereNull('Date_in')->count()`). */
  function ActiveLoanCount(loans: seq<Loan>, cardId: string): nat {
    if loans == [] then 0
    else
      var last := loans[|loans| - 1];
      ActiveLoanCount(loans[..|loans| - 1], cardId) + (if last.cardId == cardId && last.IsActive() then 1 else 0)
  }

  /** Active loans of this ISBN. */
  function ActiveIsbnCount(loans: seq<Loan>, isbn: string): nat {
    if loans == [] then 0
    else
      var last := loans[|loans| - 1];
      ActiveIsbnCount(loans[..|loans| - 1], isbn) + (if last.isbn == isbn && last.IsActive() then 1 else 0)
  }

  /** The book is out: some loan of this ISBN has no return date. */
  predicate IsbnOnLoan(loans: seq<Loan>, isbn: string) {
    exists i :: 0 <= i < |loans| && loans[i].isbn == isbn && loans[i].IsActive()
  }

  lemma {:induction false} IsbnOnLoanCount(loans: seq<Loan>, isbn: string)
    ensures IsbnOnLoan(loans, isbn) <==> ActiveIsbnCount(loans, isbn) > 0
  {
    if loans != [] {
      var prefix := loans[..|loans| - 1];
      IsbnOnLoanCount(prefix, isbn);
      if IsbnOnLoan(prefix, isbn) {
        var i :| 0 <= i < |prefix| && prefix[i].isbn == isbn && prefix[i].IsActive();
        assert loans[i] == prefix[i];
      }
      if IsbnOnLoan(loans, isbn) {
        var i :| 0 <= i < |loans| && loans[i].isbn == isbn && loans[i].IsActive();
        if i < |prefix| {
          assert prefix[i] == loans[i];
        }
      }
    }
  }

  /** The count query finds a loan exactly when some book of the borrower is still out. */
  lemma {:induction false} ActiveLoanCountPositive(loans: seq<Loan>, cardId: string)
    ensures ActiveLoanCount(loans, cardId) > 0 <==> FineService.HasActiveLoan(loans, cardId)
  {
    if loans != [] {
      var prefix := loans[..|loans| - 1];
      ActiveLoanCountPositive(prefix, cardId);
      if FineService.HasActiveLoan(prefix, cardId) {
        var i :| 0 <= i < |prefix| && prefix[i].cardId == cardId && prefix[i].IsActive();
        assert loans[i] == prefix[i];
      }
      if FineService.HasActiveLoan(loans, cardId) {
        var i :| 0 <= i < |loans| && loans[i].cardId == cardId && loans[i].IsActive();
        if i < |prefix| {
          assert prefix[i] == loans[i];
        }
      }
    }
  }

  /** The largest loan id in the table (`max('Loan_id')`), None when it is empty. */
  function MaxLoanId(loans: seq<Loan>): (m: Option<int>)
    ensures m.None? <==> loans == []
    ensures m.Some? ==> forall i :: 0 <= i < |loans| ==> loans[i].loanId <= m.value
    ensures m.Some? ==> exists i :: 0 <= i < |loans| && loans[i].loanId == m.value
  {
    if loans == [] then None
    else
      var prefix := loans[..|loans| - 1];
      var id := loans[|loans| - 1].loanId;
      var m := MaxLoanId(prefix);
      assert forall i :: 0 <= i < |prefix| ==> loans[i] == prefix[i];
      if m.Some? && m.value >= id then m else Some(id)
  }

  /** The next loan id: one more than the largest, or 1 for an empty table. */
  function NextLoanId(loans: seq<Loan>): (id: int)
    ensures forall i :: 0 <= i < |loans| ==> loans[i].loanId < id
    ensures loans == [] ==> id == 1
    ensures loans != [] ==> exists i :: 0 <= i < |loans| && id == loans[i].loanId + 1
  {
    match MaxLoanId(loans)
    case None => 1
    case Some(m) => m + 1
  }

  lemma NextLoanIdExample()
    ensures NextLoanId([Loan(1, "a", "000001", 0, 14, None), Loan(2, "b", "000001", 0, 14, None),
                        Loan(5, "c", "000002", 0, 14, Some(3))]) == 6
  {
    var loans := [Loan(1, "a", "000001", 0, 14, None), Loan(2, "b", "000001", 0, 14, None),
                  Loan(5, "c", "000002", 0, 14, Some(3))];
    assert loans[..2][..1] == [loans[0]];
    assert MaxLoanId(loans[..1]) == Some(1);
    assert MaxLoanId(loans[..2]) == Some(2);
  }

  /** No borrower holds more than three books and no ISBN is out twice. */
  ghost predicate LoanLimits(loans: seq<Loan>) {
    && (forall c :: ActiveLoanCount(loans, c) <= MaxActiveLoans)
    && (forall isbn :: ActiveIsbnCount(loans, isbn) <= 1)
  }

  /** Adding an active loan that passed the count and availability gates keeps both limits. */
  lemma NewLoanKeepsLimits(loans: seq<Loan>, loan: Loan)
    requires LoanLimits(loans)
    requires loan.IsActive()
    requires ActiveLoanCount(loans, loan.cardId) < MaxActiveLoans
    requires !IsbnOnLoan(loans, loan.isbn)
    ensures LoanLimits(loans + [loan])
  {
    var after := loans + [loan];
    assert after[..|after| - 1] == loans;
    IsbnOnLoanCount(loans, loan.isbn);
    forall c ensures ActiveLoanCount(after, c) <= MaxActiveLoans {
      assert ActiveLoanCount(after, c) == ActiveLoanCount(loans, c) + (if loan.cardId == c then 1 else 0);
    }
    forall isbn ensures ActiveIsbnCount(after, isbn) <= 1 {
      assert ActiveIsbnCount(after, isbn) == ActiveIsbnCount(loans, isbn) + (if loan.isbn == isbn then 1 else 0);
    }
  }

  /** A table with distinct ids keeps them distinct when the next id is appended. */
  lemma NextLoanIdIsFresh(loans: seq<Loan>, loan: Loan)
    requires UniqueLoanIds(loans) && loan.loanId == NextLoanId(loans)
    ensures UniqueLoanIds(loans + [loan])
    ensures LoanIds(loans + [loan]) == LoanIds(loans) + {loan.loanId}
  {
    var after := loans + [loan];
    assert forall i :: 0 <= i < |loans| ==> after[i] == loans[i];
    assert after[|loans|] == loan;
  }

  /**
   * The eligibility checks run inside the checkout transaction, in order; the
   * first that fails decides the error, None lets the loan through.
   */
  function CheckoutGate(loans: seq<Loan>, fines: map<int, Fine>, borrowers: seq<Borrower>,
                        isbn: string, cardId: string): (g: Option<CheckoutError>)
    ensures g.None? <==>
      && BorrowerExists(borrowers, cardId)
      && !HasUnpaidFine(loans, fines, cardId)
      && ActiveLoanCount(loans, cardId) < MaxActiveLoans
      && !IsbnOnLoan(loans, isbn)
    ensures g.Some? ==> g.value !in {IsbnRequired, CardIdRequired}
  {
    if !BorrowerExists(borrowers, cardId) then Some(BorrowerNotFound)
    else if HasUnpaidFine(loans, fines, cardId) then Some(UnpaidFines)
    else if ActiveLoanCount(loans, cardId) >= MaxActiveLoans then Some(TooManyActiveLoans)
    else if IsbnOnLoan(loans, isbn) then Some(BookUnavailable)
    else None
  }

  /**
   * The order of the checks: each error is returned exactly when every earlier
   * check passed and its own check fails.
   */
  lemma CheckoutGateOrder(loans: seq<Loan>, fines: map<int, Fine>, borrowers: seq<Borrower>,
                          isbn: string, cardId: string)
    ensures CheckoutGate(loans, fines, borrowers, isbn, cardId) == Some(BorrowerNotFound) <==> !BorrowerExists(borrowers, cardId)
    ensures CheckoutGate(loans, fines, borrowers, isbn, cardId) == Some(UnpaidFines) <==> BorrowerExists(borrowers, cardId) && HasUnpaidFine(loans, fines, cardId)
    ensures CheckoutGate(loans, fines, borrowers, isbn, cardId) == Some(TooManyActiveLoans) <==>
      && BorrowerExists(borrowers, cardId)
      && !HasUnpaidFine(loans, fines, cardId)
      && ActiveLoanCount(loans, cardId) >= MaxActiveLoans
    ensures CheckoutGate(loans, fines, borrowers, isbn, cardId) == Some(BookUnavailable) <==>
      && BorrowerExists(borrowers, cardId)
      && !HasUnpaidFine(loans, fines, cardId)
      && ActiveLoanCount(loans, cardId) < MaxActiveLoans
      && IsbnOnLoan(loans, isbn)
  {
  }

  /** Any unpaid fine of the borrower, on a returned book or not, refuses the checkout. */
  lemma UnpaidFineBlocksCheckout(loans: seq<Loan>, fines: map<int, Fine>, borrowers: seq<Borrower>,
                                 isbn: string, cardId: string, i: int)
    requires 0 <= i < |loans| && loans[i].cardId == cardId
    requires loans[i].loanId in fines && !fines[loans[i].loanId].paid
    ensures CheckoutGate(loans, fines, borrowers, isbn, cardId).Some?
  {
    assert LoanOfBorrower(loans, loans[i].loanId, cardId);
  }

  /** A checkout the gates let through keeps every borrower and every ISBN within its limit. */
  lemma GrantedCheckoutKeepsLimits(loans: seq<Loan>, fines: map<int, Fine>, borrowers: seq<Borrower>,
                                   loan: Loan)
    requires LoanLimits(loans) && loan.IsActive()
    requires CheckoutGate(loans, fines, borrowers, loan.isbn, loan.cardId).None?
    ensures LoanLimits(loans + [loan])
  {
    NewLoanKeepsLimits(loans, loan);
  }

  /**
   * checkout: `isbn`/`isbnLower` and `cardId`/`cardIdLower` are the `Isbn`/`isbn`
   * and `Card_id`/`card_id` request fields; `today` is the real date
   * (`Carbon::today()`), not the simulated one.
   */
  method Checkout(db: Database, isbn: Option<string>, isbnLower: Option<string>,
                  cardId: Option<string>, cardIdLower: Option<string>, today: CalendarDate)
    returns (r: Result<Loan, CheckoutError>)
    requires db.Valid()
    modifies db
    ensures db.Valid()
    ensures db.fines == old(db.fines) && db.borrowers == old(db.borrowers)
    ensures r.Failure? ==> db.loans == old(db.loans)
    ensures r.Success? ==> db.loans == old(db.loans) + [r.value]
    // validation, before any lookup
    ensures r == Failure(IsbnRequired) <==> !IsFilled(isbn.Or(isbnLower))
    ensures r == Failure(CardIdRequired) <==> IsFilled(isbn.Or(isbnLower)) && !IsFilled(cardId.Or(cardIdLower))
    // the gates, on the trimmed inputs
    ensures IsFilled(isbn.Or(isbnLower)) && IsFilled(cardId.Or(cardIdLower)) ==>
      var isbnIn := Trim(isbn.Or(isbnLower).value);
      var cardIn := Trim(cardId.Or(cardIdLower).value);
      match CheckoutGate(old(db.loans), old(db.fines), old(db.borrowers), isbnIn, cardIn)
      case Some(e) => r == Failure(e)
      case None =>
        r == Success(Loan(NextLoanId(old(db.loans)), isbnIn, cardIn, DayNumber(today),
                          DayNumber(today) + LoanPeriodDays, None))
  {
    var isbnIn := isbn.Or(isbnLower);
    var cardIn := cardId.Or(cardIdLower);
    if !IsFilled(isbnIn) {
      return Failure(IsbnRequired);
    }
    if !IsFilled(cardIn) {
      return Failure(CardIdRequired);
    }
    var isbnValue := Trim(isbnIn.value);
    var cardValue := Trim(cardIn.value);
    var gate := CheckoutGate(db.loans, db.fines, db.borrowers, isbnValue, cardValue);
    if gate.Some? {
      return Failure(gate.value);
    }

    var nextId := NextLoanId(db.loans);
    var dateOut := DayNumber(today);
    var loan := Loan(nextId, isbnValue, cardValue, dateOut, dateOut + LoanPeriodDays, None);
    NextLoanIdIsFresh(db.loans, loan);
    db.loans := db.loans + [loan];
    r := Success(loan);
  }

  /** Checkout never breaks the loan limits: the gates are what keeps them. */
  method CheckoutKeepsLimits(db: Database, isbn: Option<string>, isbnLower: Option<string>,
                             cardId: Option<string>, cardIdLower: Option<string>, today: CalendarDate)
    requires db.Valid() && LoanLimits(db.loans)
    modifies db
    ensures LoanLimits(db.loans)
  {
    var r := Checkout(db, isbn, isbnLower, cardId, cardIdLower, today);
    if r.Success? {
      GrantedCheckoutKeepsLimits(old(db.loans), old(db.fines), old(db.borrowers), r.value);
    }
  }
}
