/**
 * The fines page and the pay action: bring the fines up to date, list them
 * grouped by borrower, and pay all of one borrower's fines.
 */
module FineController {
  import opened Wrappers
  import opened Calendar
  import opened Records
  import opened DateSimulation
  import opened FineService

  // ---------------------------------------------------------------------------
  // Grouping the listing by borrower

  /** One borrower's block on the fines page. `total` is in cents. */
  datatype BorrowerFines = BorrowerFines(cardId: string, name: string, fines: seq<FineRow>, total: nat)

  /** The card ids of the rows, each once, in order of first appearance. */
  function CardOrder(rows: seq<FineRow>): (ids: seq<string>)
    ensures forall k, l :: 0 <= k < l < |ids| ==> ids[k] != ids[l]
  {
    if rows == [] then []
    else
      var ids := CardOrder(rows[..|rows| - 1]);
      if rows[|rows| - 1].cardId in ids then ids else ids + [rows[|rows| - 1].cardId]
  }

  /** Every card id of the rows appears in the order, and nothing else does. */
  lemma {:induction false} CardOrderMembers(rows: seq<FineRow>, cardId: string)
    ensures cardId in CardOrder(rows) <==> exists i :: 0 <= i < |rows| && rows[i].cardId == cardId
  {
    if rows != [] {
      var prefix := rows[..|rows| - 1];
      CardOrderMembers(prefix, cardId);
      if exists i :: 0 <= i < |prefix| && prefix[i].cardId == cardId {
        var i :| 0 <= i < |prefix| && prefix[i].cardId == cardId;
        assert rows[i] == prefix[i];
      }
      if exists i :: 0 <= i < |rows| && rows[i].cardId == cardId {
        var i :| 0 <= i < |rows| && rows[i].cardId == cardId;
        if i < |prefix| {
          assert prefix[i] == rows[i];
        }
      }
    }
  }

  /** The rows of one borrower, in listing order. */
  function RowsOf(rows: seq<FineRow>, cardId: string): (mine: seq<FineRow>)
    ensures |mine| <= |rows|
  {
    if rows == [] then []
    else
      var last := rows[|rows| - 1];
      RowsOf(rows[..|rows| - 1], cardId) + (if last.cardId == cardId then [last] else [])
  }

  /** A borrower's rows are exactly the listing's rows with that card id. */
  lemma {:induction false} RowsOfMembers(rows: seq<FineRow>, cardId: string, row: FineRow)
    ensures row in RowsOf(rows, cardId) <==> row in rows && row.cardId == cardId
  {
    if rows != [] {
      var prefix := rows[..|rows| - 1];
      RowsOfMembers(prefix, cardId, row);
      assert rows == prefix + [rows[|rows| - 1]];
    }
  }

  /** The sum of the rows' amounts, in cents. */
  function TotalCents(rows: seq<FineRow>): nat {
    if rows == [] then 0 else TotalCents(rows[..|rows| - 1]) + rows[|rows| - 1].amount
  }

  /** The block of a borrower that has rows: named after its first row. */
  function GroupOf(rows: seq<FineRow>, cardId: string): (g: BorrowerFines)
    requires cardId in CardOrder(rows)
    ensures g.cardId == cardId && g.fines != [] && g.name == g.fines[0].name
    ensures g.fines == RowsOf(rows, cardId) && g.total == TotalCents(g.fines)
  {
    RowsOfNonEmpty(rows, cardId);
    var mine := RowsOf(rows, cardId);
    BorrowerFines(cardId, mine[0].name, mine, TotalCents(mine))
  }

  lemma RowsOfNonEmpty(rows: seq<FineRow>, cardId: string)
    requires cardId in CardOrder(rows)
    ensures RowsOf(rows, cardId) != []
  {
    CardOrderMembers(rows, cardId);
    var i :| 0 <= i < |rows| && rows[i].cardId == cardId;
    RowsOfMembers(rows, cardId, rows[i]);
  }

  /** The fines page's blocks: one per borrower, in order of first appearance. */
  function Grouped(rows: seq<FineRow>): (groups: seq<BorrowerFines>)
    ensures |groups| == |CardOrder(rows)|
    ensures forall k :: 0 <= k < |groups| ==> groups[k].cardId == CardOrder(rows)[k]
  {
    var ids := CardOrder(rows);
    seq(|ids|, k requires 0 <= k < |ids| => assert ids[k] in ids; GroupOf(rows, ids[k]))
  }

  /** A new row joins its borrower's block, or opens a new one at the end. */
  function AddToGroup(g: BorrowerFines, row: FineRow): BorrowerFines {
    g.(fines := g.fines + [row], total := g.total + row.amount)
  }

  /** The index of the block with this card id. */
  function FindGroup(groups: seq<BorrowerFines>, cardId: string): (k: Option<nat>)
    ensures k.Some? ==> k.value < |groups| && groups[k.value].cardId == cardId
    ensures k.None? ==> forall l :: 0 <= l < |groups| ==> groups[l].cardId != cardId
  {
    if groups == [] then None
    else if groups[|groups| - 1].cardId == cardId then Some(|groups| - 1)
    else FindGroup(groups[..|groups| - 1], cardId)
  }

  lemma CardOrderAppend(rows: seq<FineRow>, row: FineRow)
    ensures CardOrder(rows + [row]) ==
      if row.cardId in CardOrder(rows) then CardOrder(rows) else CardOrder(rows) + [row.cardId]
  {
    assert (rows + [row])[..|rows|] == rows;
  }

  lemma RowsOfAppend(rows: seq<FineRow>, row: FineRow, cardId: string)
    ensures RowsOf(rows + [row], cardId) == RowsOf(rows, cardId) + (if row.cardId == cardId then [row] else [])
  {
    assert (rows + [row])[..|rows|] == rows;
  }

  lemma TotalCentsAppend(rows: seq<FineRow>, row: FineRow)
    ensures TotalCents(rows + [row]) == TotalCents(rows) + row.amount
  {
    assert (rows + [row])[..|rows|] == rows;
  }

  /** A borrower that already has a block keeps it, with the new row added when it is theirs. */
  lemma GroupOfAppend(rows: seq<FineRow>, row: FineRow, cardId: string)
    requires cardId in CardOrder(rows)
    ensures cardId in CardOrder(rows + [row])
    ensures GroupOf(rows + [row], cardId) ==
      if cardId == row.cardId then AddToGroup(GroupOf(rows, cardId), row) else GroupOf(rows, cardId)
  {
    CardOrderAppend(rows, row);
    RowsOfAppend(rows, row, cardId);
    RowsOfNonEmpty(rows, cardId);
    var mine := RowsOf(rows, cardId);
    var after := RowsOf(rows + [row], cardId);
    assert GroupOf(rows, cardId) == BorrowerFines(cardId, mine[0].name, mine, TotalCents(mine));
    assert GroupOf(rows + [row], cardId) == BorrowerFines(cardId, after[0].name, after, TotalCents(after));
    if cardId == row.cardId {
      assert after == mine + [row] && after[0] == mine[0];
      TotalCentsAppend(mine, row);
    } else {
      assert after == mine;
    }
  }

  /** A borrower without a block gets one holding just the new row. */
  lemma GroupOfFirstRow(rows: seq<FineRow>, row: FineRow)
    requires row.cardId !in CardOrder(rows)
    ensures row.cardId in CardOrder(rows + [row])
    ensures GroupOf(rows + [row], row.cardId) == BorrowerFines(row.cardId, row.name, [row], row.amount)
  {
    CardOrderAppend(rows, row);
    RowsOfAppend(rows, row, row.cardId);
    if RowsOf(rows, row.cardId) != [] {
      var r := RowsOf(rows, row.cardId)[0];
      RowsOfMembers(rows, row.cardId, r);
      var i :| 0 <= i < |rows| && rows[i] == r;
      CardOrderMembers(rows, row.cardId);
    }
    TotalCentsAppend([], row);
  }

  lemma GroupedAt(rows: seq<FineRow>, k: nat)
    requires k < |CardOrder(rows)|
    ensures CardOrder(rows)[k] in CardOrder(rows)
    ensures k < |Grouped(rows)| && Grouped(rows)[k] == GroupOf(rows, CardOrder(rows)[k])
  {
  }

  /** A row whose card id has no block yet opens a new block at the end. */
  lemma {:induction false} GroupedStepNew(rows: seq<FineRow>, row: FineRow)
    requires row.cardId !in CardOrder(rows)
    ensures Grouped(rows + [row]) == Grouped(rows) + [BorrowerFines(row.cardId, row.name, [row], row.amount)]
  {
    var after := rows + [row];
    var ids := CardOrder(rows);
    CardOrderAppend(rows, row);
    assert CardOrder(after) == ids + [row.cardId];
    var next := Grouped(rows) + [BorrowerFines(row.cardId, row.name, [row], row.amount)];
    assert |Grouped(after)| == |next|;
    forall k | 0 <= k < |next| ensures Grouped(after)[k] == next[k] {
      GroupedAt(after, k);
      if k < |ids| {
        GroupedAt(rows, k);
        GroupOfAppend(rows, row, ids[k]);
        assert CardOrder(after)[k] == ids[k] != row.cardId;
        assert next[k] == Grouped(rows)[k];
      } else {
        GroupOfFirstRow(rows, row);
        assert CardOrder(after)[k] == row.cardId;
        assert next[k] == BorrowerFines(row.cardId, row.name, [row], row.amount);
      }
    }
  }

  /** A row whose card id has block `k` joins that block. */
  lemma {:induction false} GroupedStepExisting(rows: seq<FineRow>, row: FineRow, k: nat)
    requires k < |Grouped(rows)| && Grouped(rows)[k].cardId == row.cardId
    ensures Grouped(rows + [row]) == Grouped(rows)[k := AddToGroup(Grouped(rows)[k], row)]
  {
    var after := rows + [row];
    var ids := CardOrder(rows);
    GroupedAt(rows, k);
    CardOrderAppend(rows, row);
    assert CardOrder(after) == ids;
    var next := Grouped(rows)[k := AddToGroup(Grouped(rows)[k], row)];
    assert |Grouped(after)| == |next|;
    forall l | 0 <= l < |next| ensures Grouped(after)[l] == next[l] {
      GroupedAt(after, l);
      GroupedAt(rows, l);
      GroupOfAppend(rows, row, ids[l]);
    }
  }

  /** One step of the grouping loop, on the reference definition. */
  lemma GroupedStep(rows: seq<FineRow>, row: FineRow)
    ensures var before := Grouped(rows);
      match FindGroup(before, row.cardId)
      case None => Grouped(rows + [row]) == before + [BorrowerFines(row.cardId, row.name, [row], row.amount)]
      case Some(k) => Grouped(rows + [row]) == before[k := AddToGroup(before[k], row)]
  {
    var before := Grouped(rows);
    match FindGroup(before, row.cardId)
    case None =>
      var ids := CardOrder(rows);
      forall k | 0 <= k < |ids| ensures ids[k] != row.cardId {
        GroupedAt(rows, k);
      }
      GroupedStepNew(rows, row);
    case Some(k) =>
      GroupedStepExisting(rows, row, k);
  }

  /** The grouping loop of finesForm. */
  method GroupByBorrower(rows: seq<FineRow>) returns (groups: seq<BorrowerFines>)
    ensures groups == Grouped(rows)
  {
    groups := [];
    var i := 0;
    while i < |rows|
      invariant i <= |rows|
      invariant groups == Grouped(rows[..i])
    {
      var row := rows[i];
      ghost var done := rows[..i];
      assert rows[..i + 1] == done + [row];
      GroupedStep(done, row);
      var k := FindGroup(groups, row.cardId);
      if k.None? {
        groups := groups + [BorrowerFines(row.cardId, row.name, [row], row.amount)];
      } else {
        groups := groups[k.value := AddToGroup(groups[k.value], row)];
      }
      assert groups == Grouped(done + [row]);
      i := i + 1;
    }
    assert rows[..i] == rows;
  }

  /**
   * Every row of the listing is in exactly one block, the block of its card
   * id; each block lists its borrower's rows in listing order and totals
   * their amounts.
   */
  lemma GroupedPartitions(rows: seq<FineRow>, row: FineRow)
    requires row in rows
    ensures exists k :: 0 <= k < |Grouped(rows)| && Grouped(rows)[k].cardId == row.cardId && row in Grouped(rows)[k].fines
    ensures forall k :: 0 <= k < |Grouped(rows)| && row in Grouped(rows)[k].fines ==> Grouped(rows)[k].cardId == row.cardId
  {
    var groups := Grouped(rows);
    var ids := CardOrder(rows);
    var i :| 0 <= i < |rows| && rows[i] == row;
    CardOrderMembers(rows, row.cardId);
    var k :| 0 <= k < |ids| && ids[k] == row.cardId;
    assert ids[k] in ids;
    RowsOfMembers(rows, row.cardId, row);
    assert row in groups[k].fines;
    forall l | 0 <= l < |groups| && row in groups[l].fines ensures groups[l].cardId == row.cardId {
      assert ids[l] in ids;
      RowsOfMembers(rows, ids[l], row);
    }
  }

  /** Each block holds its borrower's rows, in listing order, and their total. */
  lemma GroupContents(rows: seq<FineRow>, k: nat)
    requires k < |Grouped(rows)|
    ensures Grouped(rows)[k].fines == RowsOf(rows, Grouped(rows)[k].cardId)
    ensures Grouped(rows)[k].total == TotalCents(Grouped(rows)[k].fines)
    ensures Grouped(rows)[k].name == Grouped(rows)[k].fines[0].name
  {
    var ids := CardOrder(rows);
    assert ids[k] in ids;
  }

  /** The number of rows over all blocks. */
  function GroupsSize(groups: seq<BorrowerFines>): nat {
    if groups == [] then 0 else GroupsSize(groups[..|groups| - 1]) + |groups[|groups| - 1].fines|
  }

  /** The sum of the blocks' totals, in cents. */
  function GroupsTotal(groups: seq<BorrowerFines>): nat {
    if groups == [] then 0 else GroupsTotal(groups[..|groups| - 1]) + groups[|groups| - 1].total
  }

  lemma GroupsAppend(groups: seq<BorrowerFines>, g: BorrowerFines)
    ensures GroupsSize(groups + [g]) == GroupsSize(groups) + |g.fines|
    ensures GroupsTotal(groups + [g]) == GroupsTotal(groups) + g.total
  {
    assert (groups + [g])[..|groups|] == groups;
  }

  /** Adding a row to one block adds one row and its amount to the sums. */
  lemma {:induction false} GroupsAddRow(groups: seq<BorrowerFines>, k: nat, row: FineRow)
    requires k < |groups|
    ensures GroupsSize(groups[k := AddToGroup(groups[k], row)]) == GroupsSize(groups) + 1
    ensures GroupsTotal(groups[k := AddToGroup(groups[k], row)]) == GroupsTotal(groups) + row.amount
  {
    var updated := groups[k := AddToGroup(groups[k], row)];
    var n := |groups| - 1;
    if k == n {
      assert updated[..n] == groups[..n];
    } else {
      GroupsAddRow(groups[..n], k, row);
      assert updated[..n] == groups[..n][k := AddToGroup(groups[k], row)];
    }
  }

  /**
   * No row is lost or duplicated by the grouping: the blocks hold as many rows
   * as the listing, and their totals add up to the listing's total.
   */
  lemma {:induction false} GroupedKeepsEveryRow(rows: seq<FineRow>)
    ensures GroupsSize(Grouped(rows)) == |rows|
    ensures GroupsTotal(Grouped(rows)) == TotalCents(rows)
  {
    if rows != [] {
      var prefix := rows[..|rows| - 1];
      var row := rows[|rows| - 1];
      GroupedKeepsEveryRow(prefix);
      assert prefix + [row] == rows;
      GroupedStep(prefix, row);
      var before := Grouped(prefix);
      var after := Grouped(rows);
      match FindGroup(before, row.cardId)
      case None =>
        var g := BorrowerFines(row.cardId, row.name, [row], row.amount);
        assert after == before + [g];
        GroupsAppend(before, g);
      case Some(k) =>
        assert after == before[k := AddToGroup(before[k], row)];
        GroupsAddRow(before, k, row);
    }
  }

  // ---------------------------------------------------------------------------
  // finesForm and payFines

  /** `show_paid` query parameter, defaulting to "0": paid fines are shown only for "1". */
  predicate ShowPaid(param: Option<string>) {
    param.GetOr("0") == "1"
  }

  /** Paid fines are shown only when `show_paid` is exactly "1"; a missing parameter hides them. */
  lemma ShowPaidOnlyForOne(param: Option<string>)
    ensures ShowPaid(param) <==> param == Some("1")
    ensures !ShowPaid(None)
  {
  }

  /**
   * finesForm: reconcile the fines, list them (unpaid only unless paid ones
   * are asked for) and group the listing by borrower.
   */
  method FinesForm(db: Database, session: DateSimulator, today: CalendarDate, showPaidParam: Option<string>)
    returns (groups: seq<BorrowerFines>, showPaid: bool)
    requires db.Valid() && session.Valid()
    modifies db
    ensures db.Valid()
    ensures db.loans == old(db.loans) && db.borrowers == old(db.borrowers)
    ensures showPaid == ShowPaid(showPaidParam)
    ensures var current := GetCurrentDate(session, today);
            db.fines == Reconcile(old(db.fines), OverdueLoans(db.loans, current), current).fines
    ensures groups == Grouped(GetAllFinesByBorrower(db.loans, db.fines, db.borrowers, !showPaid))
  {
    showPaid := ShowPaid(showPaidParam);
    var created, updated := UpdateAllFines(db, session, today);
    var rows := GetAllFinesByBorrower(db.loans, db.fines, db.borrowers, !showPaid);
    groups := GroupByBorrower(rows);
  }

  datatype PayError =
    | NoBorrowerSelected   // the card id is missing, empty or "0"
    | BooksStillOut        // an unpaid fine belongs to a book still out
    | ActiveLoans          // refused by the service: the borrower holds a book

  /** PHP's falsiness of a request string: missing, empty, or "0". */
  predicate IsFalsy(v: Option<string>) {
    v.None? || v.value == "" || v.value == "0"
  }

  /** payFines: the controller's two checks, then payAllBorrowerFines. Returns the number of fines paid. */
  method PayFines(db: Database, cardIdParam: Option<string>) returns (r: Result<nat, PayError>)
    requires db.Valid()
    modifies db
    ensures db.Valid()
    ensures db.loans == old(db.loans) && db.borrowers == old(db.borrowers)
    ensures r.Failure? ==> db.fines == old(db.fines)
    ensures r == Failure(NoBorrowerSelected) <==> IsFalsy(cardIdParam)
    ensures !IsFalsy(cardIdParam) ==>
      var cardId := cardIdParam.value;
      && (r == Failure(BooksStillOut) <==> HasPendingUnpaidFines(db.loans, old(db.fines), cardId))
      && (r == Failure(ActiveLoans) <==>
            !HasPendingUnpaidFines(db.loans, old(db.fines), cardId) && HasActiveLoan(db.loans, cardId))
      && (r.Success? <==> !HasActiveLoan(db.loans, cardId))
      && (r.Success? ==>
            && db.fines == PayFinesOf(db.loans, old(db.fines), cardId)
            && r.value == |UnpaidFineIds(db.loans, old(db.fines), cardId)|)
  {
    if IsFalsy(cardIdParam) {
      return Failure(NoBorrowerSelected);
    }
    var cardId := cardIdParam.value;
    if HasPendingUnpaidFines(db.loans, db.fines, cardId) {
      PendingFineFacts(db.loans, db.fines, cardId);
      return Failure(BooksStillOut);
    }
    var success, count := PayAllBorrowerFines(db, cardId);
    if success {
      r := Success(count);
    } else {
      r := Failure(ActiveLoans);
    }
  }
}
