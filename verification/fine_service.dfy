/**
 * The fine engine: the per-loan fine amount, the reconciliation pass that
 * creates and refreshes fine rows, the "unpaid fine on a book still out"
 * test, bulk payment, and the fine listing the fines page reads.
 */
module FineService {
  import opened Wrappers
  import opened Text
  import opened Calendar
  import opened Records
  import opened DateSimulation

  /** DAILY_RATE, 0.25 a day, in cents. */
  const DailyRateCents: nat := 25

  /** The date the engine works with: the simulated date from the session if set, else the real date. */
  function GetCurrentDate(session: DateSimulator, today: CalendarDate): (d: Date)
    reads session
    requires session.Valid()
    ensures d == DayNumber(ParseYmd(session.GetCurrent(today)).value)
  {
    match session.simulatedDate
    case Some(s) => DayNumber(ParseYmd(s).value)
    case None => DayNumber(today)
  }

  // ---------------------------------------------------------------------------
  // calculateFineAmount

  /** The day a loan's fine is measured at: its return date once returned, else the current date. */
  function ReferenceDate(loan: Loan, current: Date): Date {
    match loan.dateIn
    case Some(dateIn) => dateIn
    case None => current
  }

  /** The fine in cents: 25 cents for every whole day the reference date lies past the due date. */
  function CalculateFineAmount(loan: Loan, current: Date): (cents: nat)
    ensures cents % DailyRateCents == 0
    ensures cents > 0 <==> ReferenceDate(loan, current) > loan.dueDate
    ensures cents == DailyRateCents * (if ReferenceDate(loan, current) > loan.dueDate then ReferenceDate(loan, current) - loan.dueDate else 0)
  {
    var daysOverdue :=
      match loan.dateIn
      case Some(dateIn) => if dateIn > loan.dueDate then dateIn - loan.dueDate else 0
      case None => if current > loan.dueDate then current - loan.dueDate else 0;
    if daysOverdue <= 0 then 0 else daysOverdue * DailyRateCents
  }

  /** A returned loan's fine no longer depends on the clock. */
  lemma ReturnedFineIgnoresClock(loan: Loan, c1: Date, c2: Date)
    requires loan.dateIn.Some?
    ensures CalculateFineAmount(loan, c1) == CalculateFineAmount(loan, c2)
  {
  }

  /** Returning a book on day `d` fixes its fine at what it owed on day `d`. */
  lemma ReturnFixesFine(loan: Loan, d: Date, later: Date)
    requires loan.IsActive()
    ensures CalculateFineAmount(loan.(dateIn := Some(d)), later) == CalculateFineAmount(loan, d)
  {
  }

  /** While a book is out and past due, each further day adds exactly the daily rate. */
  lemma ActiveFineAccruesDaily(loan: Loan, current: Date)
    requires loan.IsActive() && current >= loan.dueDate
    ensures CalculateFineAmount(loan, current + 1) == CalculateFineAmount(loan, current) + DailyRateCents
  {
  }

  // ---------------------------------------------------------------------------
  // updateAllFines

  /** The overdue filter: still out and due before today, or returned after the due date. */
  predicate IsOverdue(loan: Loan, current: Date)
    ensures IsOverdue(loan, current) <==> CalculateFineAmount(loan, current) > 0
  {
    (loan.dateIn.None? && loan.dueDate < current)
    || (loan.dateIn.Some? && loan.dateIn.value > loan.dueDate)
  }

  /** The overdue loans, in table order. */
  function OverdueLoans(loans: seq<Loan>, current: Date): (r: seq<Loan>)
    ensures |r| <= |loans|
    ensures forall i :: 0 <= i < |r| ==> IsOverdue(r[i], current)
  {
    if loans == [] then []
    else
      var last := loans[|loans| - 1];
      OverdueLoans(loans[..|loans| - 1], current) + (if IsOverdue(last, current) then [last] else [])
  }

  /** Every overdue loan is a loan of the table, at a position no later than its own. */
  lemma {:induction false} OverdueLoansFromTable(loans: seq<Loan>, current: Date, k: nat)
    requires k < |OverdueLoans(loans, current)|
    ensures exists j :: k <= j < |loans| && loans[j] == OverdueLoans(loans, current)[k]
  {
    var prefix := loans[..|loans| - 1];
    var r := OverdueLoans(prefix, current);
    if k < |r| {
      OverdueLoansFromTable(prefix, current, k);
      var j :| k <= j < |prefix| && prefix[j] == r[k];
      assert loans[j] == prefix[j];
    } else {
      assert loans[|loans| - 1] == OverdueLoans(loans, current)[k];
    }
  }

  /** The selection keeps table order: two selected loans come from two table rows in the same order. */
  lemma {:induction false} OverdueLoansInOrder(loans: seq<Loan>, current: Date, k1: nat, k2: nat)
    requires k1 < k2 < |OverdueLoans(loans, current)|
    ensures exists j1, j2 :: 0 <= j1 < j2 < |loans|
              && loans[j1] == OverdueLoans(loans, current)[k1] && loans[j2] == OverdueLoans(loans, current)[k2]
  {
    var prefix := loans[..|loans| - 1];
    var r := OverdueLoans(prefix, current);
    var all := OverdueLoans(loans, current);
    if k2 < |r| {
      OverdueLoansInOrder(prefix, current, k1, k2);
      var j1, j2 :| 0 <= j1 < j2 < |prefix| && prefix[j1] == r[k1] && prefix[j2] == r[k2];
      assert loans[j1] == prefix[j1] && loans[j2] == prefix[j2];
      assert all[k1] == r[k1] && all[k2] == r[k2];
    } else {
      OverdueLoansFromTable(prefix, current, k1);
      var j1 :| k1 <= j1 < |prefix| && prefix[j1] == r[k1];
      assert loans[j1] == prefix[j1];
      assert all[k1] == r[k1];
      assert loans[|loans| - 1] == all[k2];
    }
  }

  /** No overdue loan is missed. */
  lemma {:induction false} OverdueLoansComplete(loans: seq<Loan>, current: Date, j: nat)
    requires j < |loans| && IsOverdue(loans[j], current)
    ensures loans[j] in OverdueLoans(loans, current)
  {
    var prefix := loans[..|loans| - 1];
    if j < |loans| - 1 {
      OverdueLoansComplete(prefix, current, j);
    }
  }

  /** Filtering a table with distinct loan ids keeps them distinct. */
  lemma {:induction false} OverdueLoansUnique(loans: seq<Loan>, current: Date)
    requires UniqueLoanIds(loans)
    ensures UniqueLoanIds(OverdueLoans(loans, current))
    ensures LoanIds(OverdueLoans(loans, current)) <= LoanIds(loans)
  {
    if loans != [] {
      var prefix := loans[..|loans| - 1];
      var last := loans[|loans| - 1];
      var r := OverdueLoans(prefix, current);
      OverdueLoansUnique(prefix, current);
      forall k | 0 <= k < |r| ensures r[k].loanId != last.loanId {
        OverdueLoansFromTable(prefix, current, k);
        var j :| k <= j < |prefix| && prefix[j] == r[k];
        assert loans[j] == r[k];
      }
      assert LoanIds(prefix) <= LoanIds(loans) by {
        forall id | id in LoanIds(prefix) ensures id in LoanIds(loans) {
          var j :| 0 <= j < |prefix| && prefix[j].loanId == id;
          assert loans[j].loanId == id;
        }
      }
      assert last.loanId in LoanIds(loans);
    }
  }

  /** The fine table and the two counters of one reconciliation pass. */
  datatype Tally = Tally(fines: map<int, Fine>, created: nat, updated: nat)

  /** One iteration of the reconciliation loop, for one overdue loan. */
  function ReconcileLoan(t: Tally, loan: Loan, current: Date): Tally {
    var amount := CalculateFineAmount(loan, current);
    if amount == 0 then t
    else if loan.loanId !in t.fines then
      Tally(t.fines[loan.loanId := Fine(amount, false)], t.created + 1, t.updated)
    else if t.fines[loan.loanId].paid then t
    else if t.fines[loan.loanId].amount != amount then
      Tally(t.fines[loan.loanId := t.fines[loan.loanId].(amount := amount)], t.created, t.updated + 1)
    else t
  }

  /** The reconciliation loop run over `loans` in order, starting from the fine table `fines`. */
  function Reconcile(fines: map<int, Fine>, loans: seq<Loan>, current: Date): Tally {
    if loans == [] then Tally(fines, 0, 0)
    else ReconcileLoan(Reconcile(fines, loans[..|loans| - 1], current), loans[|loans| - 1], current)
  }

  function Lookup(fines: map<int, Fine>, id: int): Option<Fine> {
    if id in fines then Some(fines[id]) else None
  }

  /**
   * What a loan's fine row should be after reconciliation, given the row it had
   * before: untouched when nothing is owed, created unpaid when missing, frozen
   * when paid, and otherwise holding the computed amount.
   */
  function FineAfter(fines: map<int, Fine>, loan: Loan, current: Date): Option<Fine> {
    var amount := CalculateFineAmount(loan, current);
    if amount == 0 then Lookup(fines, loan.loanId)
    else if loan.loanId !in fines then Some(Fine(amount, false))
    else if fines[loan.loanId].paid then Some(fines[loan.loanId])
    else Some(Fine(amount, false))
  }

  /** A fine whose loan is not among the scanned loans is left as it was. */
  lemma {:induction false} ReconcileUntouched(fines: map<int, Fine>, loans: seq<Loan>, current: Date, id: int)
    requires forall i :: 0 <= i < |loans| ==> loans[i].loanId != id
    ensures Lookup(Reconcile(fines, loans, current).fines, id) == Lookup(fines, id)
  {
    if loans != [] {
      ReconcileUntouched(fines, loans[..|loans| - 1], current, id);
    }
  }

  /** With distinct loan ids, each scanned loan's fine ends up exactly as FineAfter says. */
  lemma {:induction false} ReconcileAt(fines: map<int, Fine>, loans: seq<Loan>, current: Date, i: nat)
    requires UniqueLoanIds(loans) && i < |loans|
    ensures Lookup(Reconcile(fines, loans, current).fines, loans[i].loanId) == FineAfter(fines, loans[i], current)
  {
    var prefix := loans[..|loans| - 1];
    if i == |loans| - 1 {
      ReconcileUntouched(fines, prefix, current, loans[i].loanId);
    } else {
      ReconcileAt(fines, prefix, current, i);
    }
  }

  /** A paid fine is never changed by reconciliation. */
  lemma {:induction false} ReconcileKeepsPaidFines(fines: map<int, Fine>, loans: seq<Loan>, current: Date, id: int)
    requires id in fines && fines[id].paid
    ensures id in Reconcile(fines, loans, current).fines
    ensures Reconcile(fines, loans, current).fines[id] == fines[id]
  {
    if loans != [] {
      ReconcileKeepsPaidFines(fines, loans[..|loans| - 1], current, id);
    }
  }

  /** Reconciliation only adds rows, and only for scanned loans. */
  lemma {:induction false} ReconcileKeys(fines: map<int, Fine>, loans: seq<Loan>, current: Date)
    ensures fines.Keys <= Reconcile(fines, loans, current).fines.Keys <= fines.Keys + LoanIds(loans)
  {
    if loans != [] {
      var prefix := loans[..|loans| - 1];
      var last := loans[|loans| - 1];
      ReconcileKeys(fines, prefix, current);
      assert LoanIds(prefix) <= LoanIds(loans) by {
        forall id | id in LoanIds(prefix) ensures id in LoanIds(loans) {
          var k :| 0 <= k < |prefix| && prefix[k].loanId == id;
          assert loans[k].loanId == id;
        }
      }
      assert last.loanId in LoanIds(loans);
    }
  }

  /** `created` is the number of rows the pass added. */
  lemma {:induction false} ReconcileCreatedCountsRows(fines: map<int, Fine>, loans: seq<Loan>, current: Date)
    ensures |Reconcile(fines, loans, current).fines| == |fines| + Reconcile(fines, loans, current).created
  {
    if loans != [] {
      ReconcileCreatedCountsRows(fines, loans[..|loans| - 1], current);
    }
  }

  /** A loan the pass leaves as it is. */
  predicate Settled(fines: map<int, Fine>, loan: Loan, current: Date) {
    var amount := CalculateFineAmount(loan, current);
    amount == 0 || (loan.loanId in fines && (fines[loan.loanId].paid || fines[loan.loanId].amount == amount))
  }

  lemma {:induction false} ReconcileSettled(fines: map<int, Fine>, loans: seq<Loan>, current: Date)
    requires forall i :: 0 <= i < |loans| ==> Settled(fines, loans[i], current)
    ensures Reconcile(fines, loans, current) == Tally(fines, 0, 0)
  {
    if loans != [] {
      ReconcileSettled(fines, loans[..|loans| - 1], current);
    }
  }

  /** A second pass over the same loans on the same date writes nothing: created = updated = 0. */
  lemma ReconcileIdempotent(fines: map<int, Fine>, loans: seq<Loan>, current: Date)
    requires UniqueLoanIds(loans)
    ensures var after := Reconcile(fines, loans, current).fines;
            Reconcile(after, loans, current) == Tally(after, 0, 0)
  {
    var after := Reconcile(fines, loans, current).fines;
    forall i | 0 <= i < |loans| ensures Settled(after, loans[i], current) {
      ReconcileAt(fines, loans, current, i);
    }
    ReconcileSettled(after, loans, current);
  }

  /** Loans whose fine row the pass creates. */
  function CountMissing(fines: map<int, Fine>, loans: seq<Loan>, current: Date): nat {
    if loans == [] then 0
    else
      var last := loans[|loans| - 1];
      CountMissing(fines, loans[..|loans| - 1], current)
      + (if CalculateFineAmount(last, current) > 0 && last.loanId !in fines then 1 else 0)
  }

  /** Loans whose unpaid fine row holds an amount other than the computed one. */
  function CountStale(fines: map<int, Fine>, loans: seq<Loan>, current: Date): nat {
    if loans == [] then 0
    else
      var last := loans[|loans| - 1];
      var amount := CalculateFineAmount(last, current);
      CountStale(fines, loans[..|loans| - 1], current)
      + (if amount > 0 && last.loanId in fines && !fines[last.loanId].paid && fines[last.loanId].amount != amount then 1 else 0)
  }

  /** `created` counts loans that owed a fine and had no row; `updated` counts unpaid rows with a stale amount. */
  lemma {:induction false} ReconcileCounts(fines: map<int, Fine>, loans: seq<Loan>, current: Date)
    requires UniqueLoanIds(loans)
    ensures Reconcile(fines, loans, current).created == CountMissing(fines, loans, current)
    ensures Reconcile(fines, loans, current).updated == CountStale(fines, loans, current)
  {
    if loans != [] {
      var prefix := loans[..|loans| - 1];
      ReconcileCounts(fines, prefix, current);
      ReconcileUntouched(fines, prefix, current, loans[|loans| - 1].loanId);
    }
  }

  lemma PrefixStep<T>(s: seq<T>, i: nat)
    requires i < |s|
    ensures s[..i + 1][..i] == s[..i] && s[..i + 1][i] == s[i]
  {
  }

  /** A pass over the overdue loans adds fine rows only for loans of the table. */
  lemma ReconcileStaysValid(loans: seq<Loan>, fines: map<int, Fine>, current: Date)
    requires UniqueLoanIds(loans) && fines.Keys <= LoanIds(loans)
    ensures Reconcile(fines, OverdueLoans(loans, current), current).fines.Keys <= LoanIds(loans)
  {
    ReconcileKeys(fines, OverdueLoans(loans, current), current);
    OverdueLoansUnique(loans, current);
  }

  /** The body of updateAllFines' loop: create or update the fine of one overdue loan. */
  method UpdateLoanFine(db: Database, loan: Loan, current: Date, created: nat, updated: nat)
    returns (created': nat, updated': nat)
    modifies db
    ensures db.loans == old(db.loans) && db.borrowers == old(db.borrowers)
    ensures Tally(db.fines, created', updated') == ReconcileLoan(Tally(old(db.fines), created, updated), loan, current)
  {
    created', updated' := created, updated;
    var calculatedFine := CalculateFineAmount(loan, current);
    if calculatedFine > 0 {
      if loan.loanId in db.fines {
        var existingFine := db.fines[loan.loanId];
        if !existingFine.paid && existingFine.amount != calculatedFine {
          db.fines := db.fines[loan.loanId := existingFine.(amount := calculatedFine)];
          updated' := updated + 1;
        }
      } else {
        db.fines := db.fines[loan.loanId := Fine(calculatedFine, false)];
        created' := created + 1;
      }
    }
  }

  /**
   * updateAllFines: scan the overdue loans and create, update or leave alone
   * each one's fine row. Paid rows are skipped.
   */
  method UpdateAllFines(db: Database, session: DateSimulator, today: CalendarDate) returns (created: nat, updated: nat)
    requires db.Valid() && session.Valid()
    modifies db
    ensures db.Valid()
    ensures db.loans == old(db.loans) && db.borrowers == old(db.borrowers)
    ensures var current := GetCurrentDate(session, today);
            Reconcile(old(db.fines), OverdueLoans(db.loans, current), current) == Tally(db.fines, created, updated)
  {
    var current := GetCurrentDate(session, today);
    var overdueLoans := OverdueLoans(db.loans, current);
    ghost var fines0 := db.fines;
    created, updated := 0, 0;
    var i := 0;
    while i < |overdueLoans|
      invariant i <= |overdueLoans|
      invariant db.loans == old(db.loans) && db.borrowers == old(db.borrowers)
      invariant Reconcile(fines0, overdueLoans[..i], current) == Tally(db.fines, created, updated)
    {
      var loan := overdueLoans[i];
      PrefixStep(overdueLoans, i);
      created, updated := UpdateLoanFine(db, loan, current, created, updated);
      i := i + 1;
    }
    assert overdueLoans[..i] == overdueLoans;
    ReconcileStaysValid(db.loans, fines0, current);
  }

  /**
   * The effect of updateAllFines on the whole fine table: every loan's fine
   * row becomes FineAfter of its old row, and rows of no loan stay as they were.
   */
  lemma UpdateAllFinesEffect(loans: seq<Loan>, fines: map<int, Fine>, current: Date, id: int)
    requires UniqueLoanIds(loans)
    ensures var after := Reconcile(fines, OverdueLoans(loans, current), current).fines;
            && (forall i :: 0 <= i < |loans| && loans[i].loanId == id ==> Lookup(after, id) == FineAfter(fines, loans[i], current))
            && (id !in LoanIds(loans) ==> Lookup(after, id) == Lookup(fines, id))
  {
    var overdue := OverdueLoans(loans, current);
    var after := Reconcile(fines, overdue, current).fines;
    forall i | 0 <= i < |loans| && loans[i].loanId == id
      ensures Lookup(after, id) == FineAfter(fines, loans[i], current)
    {
      if IsOverdue(loans[i], current) {
        OverdueLoansComplete(loans, current, i);
        OverdueLoansUnique(loans, current);
        var k :| 0 <= k < |overdue| && overdue[k] == loans[i];
        ReconcileAt(fines, overdue, current, k);
      } else {
        forall k | 0 <= k < |overdue| ensures overdue[k].loanId != id {
          OverdueLoansFromTable(loans, current, k);
          var j :| k <= j < |loans| && loans[j] == overdue[k];
          assert j != i;
        }
        ReconcileUntouched(fines, overdue, current, id);
      }
    }
    if id !in LoanIds(loans) {
      forall k | 0 <= k < |overdue| ensures overdue[k].loanId != id {
        OverdueLoansFromTable(loans, current, k);
        var j :| k <= j < |loans| && loans[j] == overdue[k];
      }
      ReconcileUntouched(fines, overdue, current, id);
    }
  }

  // ---------------------------------------------------------------------------
  // hasPendingUnpaidFines and payAllBorrowerFines

  /** The borrower holds at least one unreturned book. */
  predicate HasActiveLoan(loans: seq<Loan>, cardId: string) {
    exists i :: 0 <= i < |loans| && loans[i].cardId == cardId && loans[i].IsActive()
  }

  /** hasPendingUnpaidFines: some unpaid fine belongs to a loan of this borrower that is still out. */
  predicate HasPendingUnpaidFines(loans: seq<Loan>, fines: map<int, Fine>, cardId: string) {
    exists id :: id in fines && !fines[id].paid && ActiveLoanOfBorrower(loans, id, cardId)
  }

  predicate ActiveLoanOfBorrower(loans: seq<Loan>, loanId: int, cardId: string) {
    exists i :: 0 <= i < |loans| && loans[i].loanId == loanId && loans[i].cardId == cardId && loans[i].IsActive()
  }

  /** A pending fine needs an unreturned book, and is an unpaid fine of the borrower. */
  lemma PendingFineFacts(loans: seq<Loan>, fines: map<int, Fine>, cardId: string)
    requires HasPendingUnpaidFines(loans, fines, cardId)
    ensures HasActiveLoan(loans, cardId)
    ensures HasUnpaidFine(loans, fines, cardId)
  {
    var id :| id in fines && !fines[id].paid && ActiveLoanOfBorrower(loans, id, cardId);
    var i :| 0 <= i < |loans| && loans[i].loanId == id && loans[i].cardId == cardId && loans[i].IsActive();
    assert LoanOfBorrower(loans, id, cardId);
  }

  /** hasPendingUnpaidFines seen from the loan table: some book of the borrower still out carries an unpaid fine. */
  lemma PendingFineByLoan(loans: seq<Loan>, fines: map<int, Fine>, cardId: string)
    ensures HasPendingUnpaidFines(loans, fines, cardId) <==>
      exists i :: 0 <= i < |loans| && loans[i].cardId == cardId && loans[i].IsActive()
                  && loans[i].loanId in fines && !fines[loans[i].loanId].paid
  {
    if HasPendingUnpaidFines(loans, fines, cardId) {
      var id :| id in fines && !fines[id].paid && ActiveLoanOfBorrower(loans, id, cardId);
      var i :| 0 <= i < |loans| && loans[i].loanId == id && loans[i].cardId == cardId && loans[i].IsActive();
    }
    if exists i :: 0 <= i < |loans| && loans[i].cardId == cardId && loans[i].IsActive()
                   && loans[i].loanId in fines && !fines[loans[i].loanId].paid {
      var i :| 0 <= i < |loans| && loans[i].cardId == cardId && loans[i].IsActive()
               && loans[i].loanId in fines && !fines[loans[i].loanId].paid;
      assert ActiveLoanOfBorrower(loans, loans[i].loanId, cardId);
    }
  }

  /** The two predicates differ: an unpaid fine on a returned book is not pending. */
  lemma UnpaidFineOnReturnedBookIsNotPending()
    ensures var loans := [Loan(1, "111", "000001", 0, 14, Some(20))];
            var fines := map[1 := Fine(150, false)];
            HasUnpaidFine(loans, fines, "000001") && !HasPendingUnpaidFines(loans, fines, "000001")
  {
    var loans := [Loan(1, "111", "000001", 0, 14, Some(20))];
    assert loans[0].loanId == 1 && loans[0].cardId == "000001" && !loans[0].IsActive();
    assert LoanOfBorrower(loans, 1, "000001");
  }

  /** The ids of the borrower's unpaid fines: the rows a payment marks paid. */
  function UnpaidFineIds(loans: seq<Loan>, fines: map<int, Fine>, cardId: string): set<int> {
    set id | id in fines && !fines[id].paid && LoanOfBorrower(loans, id, cardId)
  }

  /** The fine table after all of the borrower's unpaid fines are marked paid. */
  function PayFinesOf(loans: seq<Loan>, fines: map<int, Fine>, cardId: string): (r: map<int, Fine>)
    ensures r.Keys == fines.Keys
    ensures forall id :: id in fines ==> r[id].amount == fines[id].amount
    ensures forall id :: id in fines && !LoanOfBorrower(loans, id, cardId) ==> r[id] == fines[id]
    ensures forall id :: id in fines && LoanOfBorrower(loans, id, cardId) ==> r[id].paid
    ensures !HasUnpaidFine(loans, r, cardId)
    ensures (set id | id in fines && r[id] != fines[id]) == UnpaidFineIds(loans, fines, cardId)
  {
    map id | id in fines ::
      if !fines[id].paid && LoanOfBorrower(loans, id, cardId) then fines[id].(paid := true) else fines[id]
  }

  /**
   * payAllBorrowerFines: refused while the borrower has any unreturned loan;
   * otherwise every unpaid fine of the borrower is marked paid and their number
   * returned.
   */
  method PayAllBorrowerFines(db: Database, cardId: string) returns (success: bool, count: nat)
    requires db.Valid()
    modifies db
    ensures db.Valid()
    ensures db.loans == old(db.loans) && db.borrowers == old(db.borrowers)
    ensures success <==> !HasActiveLoan(db.loans, cardId)
    ensures !success ==> count == 0 && db.fines == old(db.fines)
    ensures success ==> db.fines == PayFinesOf(db.loans, old(db.fines), cardId)
                        && count == |UnpaidFineIds(db.loans, old(db.fines), cardId)|
  {
    var hasActive := HasActiveLoan(db.loans, cardId);
    if hasActive {
      return false, 0;
    }
    var paying := UnpaidFineIds(db.loans, db.fines, cardId);
    db.fines := PayFinesOf(db.loans, db.fines, cardId);
    success, count := true, |paying|;
  }

  // ---------------------------------------------------------------------------
  // getAllFinesByBorrower

  /** A row of the fine listing: a fine joined with its loan and its borrower. */
  datatype FineRow = FineRow(
    loanId: int, cardId: string, name: string, isbn: string,
    dueDate: Date, dateIn: Option<Date>, amount: nat, paid: bool)

  /** The borrower row with this card id, if any. */
  function FindBorrower(borrowers: seq<Borrower>, cardId: string): (r: Option<Borrower>)
    ensures r.Some? ==> r.value in borrowers && r.value.cardId == cardId
    ensures r.None? ==> forall i :: 0 <= i < |borrowers| ==> borrowers[i].cardId != cardId
  {
    if borrowers == [] then None
    else if borrowers[0].cardId == cardId then Some(borrowers[0])
    else FindBorrower(borrowers[1..], cardId)
  }

  /**
   * The listing row of a loan: present when the loan has a fine, the fine
   * passes the unpaid-only filter, and the loan's borrower exists (inner joins).
   */
  function JoinRow(loan: Loan, fines: map<int, Fine>, borrowers: seq<Borrower>, unpaidOnly: bool): Option<FineRow> {
    if loan.loanId in fines && (!unpaidOnly || !fines[loan.loanId].paid) && FindBorrower(borrowers, loan.cardId).Some? then
      var fine := fines[loan.loanId];
      Some(FineRow(loan.loanId, loan.cardId, FindBorrower(borrowers, loan.cardId).value.name, loan.isbn,
                   loan.dueDate, loan.dateIn, fine.amount, fine.paid))
    else None
  }

  function JoinedRows(loans: seq<Loan>, fines: map<int, Fine>, borrowers: seq<Borrower>, unpaidOnly: bool): seq<FineRow> {
    if loans == [] then []
    else
      var last := JoinRow(loans[|loans| - 1], fines, borrowers, unpaidOnly);
      JoinedRows(loans[..|loans| - 1], fines, borrowers, unpaidOnly) + (if last.Some? then [last.value] else [])
  }

  lemma {:induction false} JoinedRowsMembers(loans: seq<Loan>, fines: map<int, Fine>, borrowers: seq<Borrower>, unpaidOnly: bool, row: FineRow)
    ensures row in JoinedRows(loans, fines, borrowers, unpaidOnly)
            <==> exists i :: 0 <= i < |loans| && JoinRow(loans[i], fines, borrowers, unpaidOnly) == Some(row)
  {
    if loans != [] {
      var prefix := loans[..|loans| - 1];
      var last := JoinRow(loans[|loans| - 1], fines, borrowers, unpaidOnly);
      var tail := if last.Some? then [last.value] else [];
      assert JoinedRows(loans, fines, borrowers, unpaidOnly) == JoinedRows(prefix, fines, borrowers, unpaidOnly) + tail;
      assert row in tail <==> last == Some(row);
      JoinedRowsMembers(prefix, fines, borrowers, unpaidOnly, row);
      if exists i :: 0 <= i < |prefix| && JoinRow(prefix[i], fines, borrowers, unpaidOnly) == Some(row) {
        var i :| 0 <= i < |prefix| && JoinRow(prefix[i], fines, borrowers, unpaidOnly) == Some(row);
        assert loans[i] == prefix[i];
      }
      if exists i :: 0 <= i < |loans| && JoinRow(loans[i], fines, borrowers, unpaidOnly) == Some(row) {
        var i :| 0 <= i < |loans| && JoinRow(loans[i], fines, borrowers, unpaidOnly) == Some(row);
        if i < |prefix| {
          assert prefix[i] == loans[i];
        }
      }
    }
  }

  /** With unique loan ids the join lists each fine once: no two rows share a loan id. */
  lemma {:induction false} JoinedRowsDistinct(loans: seq<Loan>, fines: map<int, Fine>, borrowers: seq<Borrower>, unpaidOnly: bool)
    requires UniqueLoanIds(loans)
    ensures var rows := JoinedRows(loans, fines, borrowers, unpaidOnly);
            forall i, j :: 0 <= i < j < |rows| ==> rows[i].loanId != rows[j].loanId
  {
    if loans != [] {
      var prefix := loans[..|loans| - 1];
      var loan := loans[|loans| - 1];
      assert UniqueLoanIds(prefix) by {
        forall i, j | 0 <= i < j < |prefix| ensures prefix[i].loanId != prefix[j].loanId {
          assert prefix[i] == loans[i] && prefix[j] == loans[j];
        }
      }
      JoinedRowsDistinct(prefix, fines, borrowers, unpaidOnly);
      var before := JoinedRows(prefix, fines, borrowers, unpaidOnly);
      var last := JoinRow(loan, fines, borrowers, unpaidOnly);
      if last.Some? {
        var rows := before + [last.value];
        assert JoinedRows(loans, fines, borrowers, unpaidOnly) == rows;
        forall i | 0 <= i < |before| ensures before[i].loanId != last.value.loanId {
          JoinedRowsMembers(prefix, fines, borrowers, unpaidOnly, before[i]);
          var k :| 0 <= k < |prefix| && JoinRow(prefix[k], fines, borrowers, unpaidOnly) == Some(before[i]);
          assert prefix[k] == loans[k];
        }
        forall i, j | 0 <= i < j < |rows| ensures rows[i].loanId != rows[j].loanId {
          if j < |before| {
            assert rows[i] == before[i] && rows[j] == before[j];
          } else {
            assert rows[i] == before[i] && rows[j] == last.value;
          }
        }
      } else {
        assert JoinedRows(loans, fines, borrowers, unpaidOnly) == before;
      }
    }
  }

  /** `ORDER BY Card_id, Loan_id`. */
  predicate RowLeq(a: FineRow, b: FineRow) {
    (a.cardId != b.cardId && StringLeq(a.cardId, b.cardId)) || (a.cardId == b.cardId && a.loanId <= b.loanId)
  }

  lemma RowLeqTotal(a: FineRow, b: FineRow)
    ensures RowLeq(a, b) || RowLeq(b, a)
  {
    StringLeqTotal(a.cardId, b.cardId);
  }

  lemma RowLeqTransitive(a: FineRow, b: FineRow, c: FineRow)
    requires RowLeq(a, b) && RowLeq(b, c)
    ensures RowLeq(a, c)
  {
    if a.cardId != b.cardId && b.cardId != c.cardId {
      StringLeqTransitive(a.cardId, b.cardId, c.cardId);
      if a.cardId == c.cardId {
        StringLeqAntisymmetric(a.cardId, b.cardId);
      }
    }
  }

  predicate SortedRows(rows: seq<FineRow>) {
    forall i, j :: 0 <= i < j < |rows| ==> RowLeq(rows[i], rows[j])
  }

  function InsertRow(x: FineRow, rows: seq<FineRow>): (r: seq<FineRow>)
    ensures multiset(r) == multiset(rows) + multiset{x}
  {
    if rows == [] then [x]
    else if RowLeq(x, rows[0]) then [x] + rows
    else
      assert rows == [rows[0]] + rows[1..];
      [rows[0]] + InsertRow(x, rows[1..])
  }

  predicate LowerBound(b: FineRow, rows: seq<FineRow>) {
    forall k :: 0 <= k < |rows| ==> RowLeq(b, rows[k])
  }

  lemma {:induction false} InsertRowLowerBound(b: FineRow, x: FineRow, rows: seq<FineRow>)
    requires LowerBound(b, rows) && RowLeq(b, x)
    ensures LowerBound(b, InsertRow(x, rows))
  {
    if rows != [] && !RowLeq(x, rows[0]) {
      var rest := rows[1..];
      assert LowerBound(b, rest) by {
        forall k | 0 <= k < |rest| ensures RowLeq(b, rest[k]) {
          assert rest[k] == rows[k + 1];
        }
      }
      InsertRowLowerBound(b, x, rest);
      var r := [rows[0]] + InsertRow(x, rest);
      assert InsertRow(x, rows) == r;
      forall k | 0 <= k < |r| ensures RowLeq(b, r[k]) {
        if k > 0 {
          assert r[k] == InsertRow(x, rest)[k - 1];
        }
      }
    }
  }

  lemma {:induction false} InsertRowSorted(x: FineRow, rows: seq<FineRow>)
    requires SortedRows(rows)
    ensures SortedRows(InsertRow(x, rows))
  {
    if rows == [] {
    } else if RowLeq(x, rows[0]) {
      forall j | 0 < j < |rows| ensures RowLeq(x, rows[j]) {
        RowLeqTransitive(x, rows[0], rows[j]);
      }
    } else {
      var rest := rows[1..];
      InsertRowSorted(x, rest);
      RowLeqTotal(x, rows[0]);
      InsertRowLowerBound(rows[0], x, rest);
    }
  }

  /** Insertion sort by (Card_id, Loan_id). */
  function SortRows(rows: seq<FineRow>): (r: seq<FineRow>)
    ensures SortedRows(r) && multiset(r) == multiset(rows)
  {
    if rows == [] then []
    else
      assert rows == rows[..|rows| - 1] + [rows[|rows| - 1]];
      var sorted := SortRows(rows[..|rows| - 1]);
      InsertRowSorted(rows[|rows| - 1], sorted);
      InsertRow(rows[|rows| - 1], sorted)
  }

  /** Sorting the joined rows keeps exactly the rows the join produces. */
  lemma SortedJoinMembers(loans: seq<Loan>, fines: map<int, Fine>, borrowers: seq<Borrower>, unpaidOnly: bool)
    ensures forall row :: row in SortRows(JoinedRows(loans, fines, borrowers, unpaidOnly))
              <==> exists i :: 0 <= i < |loans| && JoinRow(loans[i], fines, borrowers, unpaidOnly) == Some(row)
  {
    var joined := JoinedRows(loans, fines, borrowers, unpaidOnly);
    var rows := SortRows(joined);
    forall row ensures row in rows <==> exists i :: 0 <= i < |loans| && JoinRow(loans[i], fines, borrowers, unpaidOnly) == Some(row) {
      assert row in rows <==> row in multiset(rows);
      assert row in joined <==> row in multiset(joined);
      JoinedRowsMembers(loans, fines, borrowers, unpaidOnly, row);
    }
  }

  /**
   * getAllFinesByBorrower: the fines joined with their loan and borrower,
   * only the unpaid ones when `unpaidOnly`, ordered by card id then loan id.
   */
  function GetAllFinesByBorrower(loans: seq<Loan>, fines: map<int, Fine>, borrowers: seq<Borrower>, unpaidOnly: bool): (rows: seq<FineRow>)
    ensures SortedRows(rows)
    ensures multiset(rows) == multiset(JoinedRows(loans, fines, borrowers, unpaidOnly))
    ensures forall row :: row in rows <==> exists i :: 0 <= i < |loans| && JoinRow(loans[i], fines, borrowers, unpaidOnly) == Some(row)
    ensures forall row :: row in rows ==> row.loanId in fines && row.paid == fines[row.loanId].paid && row.amount == fines[row.loanId].amount
    ensures unpaidOnly ==> forall row :: row in rows ==> !row.paid
  {
    SortedJoinMembers(loans, fines, borrowers, unpaidOnly);
    SortRows(JoinedRows(loans, fines, borrowers, unpaidOnly))
  }
}
