/**
 * The rows of the three tables the loan and fine rules work on, and the
 * database that holds them. Dates are day numbers (see Calendar.DayNumber);
 * fine amounts are whole cents.
 */
module Records {
  import opened Wrappers

  /** A calendar day, as a day number. */
  type Date = int

  /** A `book_loans` row. `dateIn` is None while the book is still out. */
  datatype Loan = Loan(loanId: int, isbn: string, cardId: string, dateOut: Date, dueDate: Date, dateIn: Option<Date>) {
    /** A loan is active while it has no return date. */
    predicate IsActive() {
      dateIn.None?
    }
  }

  /** A `fines` row; the table is keyed by the Loan_id the fine belongs to. */
  datatype Fine = Fine(amount: nat, paid: bool)

  /** A `borrower` row. Ssn and Phone are stored as integers. */
  datatype Borrower = Borrower(cardId: string, ssn: nat, name: string, address: string, phone: Option<nat>)

  predicate UniqueLoanIds(loans: seq<Loan>) {
    forall i, j :: 0 <= i < j < |loans| ==> loans[i].loanId != loans[j].loanId
  }

  function LoanIds(loans: seq<Loan>): set<int> {
    set i | 0 <= i < |loans| :: loans[i].loanId
  }

  predicate UniqueCardIds(borrowers: seq<Borrower>) {
    forall i, j :: 0 <= i < j < |borrowers| ==> borrowers[i].cardId != borrowers[j].cardId
  }

  predicate UniqueSsns(borrowers: seq<Borrower>) {
    forall i, j :: 0 <= i < j < |borrowers| ==> borrowers[i].ssn != borrowers[j].ssn
  }

  /** The fine with this Loan_id belongs to a loan of borrower `cardId` (`whereHas('loan', Card_id = ...)`). */
  predicate LoanOfBorrower(loans: seq<Loan>, loanId: int, cardId: string) {
    exists i :: 0 <= i < |loans| && loans[i].loanId == loanId && loans[i].cardId == cardId
  }

  /** Some unpaid fine belongs to one of the borrower's loans, returned or not. */
  predicate HasUnpaidFine(loans: seq<Loan>, fines: map<int, Fine>, cardId: string) {
    exists id :: id in fines && !fines[id].paid && LoanOfBorrower(loans, id, cardId)
  }

  /** The library database: the `book_loans`, `fines` and `borrower` tables. */
  /** The same check seen from the loan table: some loan of the borrower carries an unpaid fine. */
  lemma UnpaidFineByLoan(loans: seq<Loan>, fines: map<int, Fine>, cardId: string)
    ensures HasUnpaidFine(loans, fines, cardId) <==>
      exists i :: 0 <= i < |loans| && loans[i].cardId == cardId && loans[i].loanId in fines && !fines[loans[i].loanId].paid
  {
    if HasUnpaidFine(loans, fines, cardId) {
      var id :| id in fines && !fines[id].paid && LoanOfBorrower(loans, id, cardId);
      var i :| 0 <= i < |loans| && loans[i].loanId == id && loans[i].cardId == cardId;
    }
    if exists i :: 0 <= i < |loans| && loans[i].cardId == cardId && loans[i].loanId in fines && !fines[loans[i].loanId].paid {
      var i :| 0 <= i < |loans| && loans[i].cardId == cardId && loans[i].loanId in fines && !fines[loans[i].loanId].paid;
      assert LoanOfBorrower(loans, loans[i].loanId, cardId);
    }
  }

  class Database {
    var loans: seq<Loan>
    var fines: map<int, Fine>
    var borrowers: seq<Borrower>

    /** Primary keys are unique, every fine refers to a loan, and SSNs are unique. */
    ghost predicate Valid()
      reads this
    {
      && UniqueLoanIds(loans)
      && fines.Keys <= LoanIds(loans)
      && UniqueCardIds(borrowers)
      && UniqueSsns(borrowers)
    }

    constructor ()
      ensures Valid()
      ensures loans == [] && fines == map[] && borrowers == []
    {
      loans := [];
      fines := map[];
      borrowers := [];
    }
  }
}
