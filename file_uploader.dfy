/** Statement import (`processData` in src/components/FileUploader.tsx):
    a grid of cells, as the spreadsheet or CSV reader returns it, is
    searched for a header row (or recognised as an OPay dump without
    one), each later row becomes at most one raw transaction, and the
    categorized result replaces the collection in the store. */
module FileUploader {
  import opened Types
  import opened Strings
  import Categorizer
  import Store

  // ---------------------------------------------------------------------
  // The grid
  // ---------------------------------------------------------------------

  /** One cell: a number, a string, or `undefined` (a blank, or an index
      past the end of the row or below zero). */
  datatype Cell = Num(x: real) | Text(s: string) | Empty

  /** One row: `null`/`undefined`, or an array of cells. */
  datatype Row = Missing | Cells(cells: seq<Cell>)

  /** The conversions of the JavaScript runtime the model leaves
      undefined: `String(x)` of a number, and the locale date text of a
      spreadsheet serial (`new Date(...).toLocaleDateString()`). */
  datatype Runtime = Runtime(numText: real -> string, serialDate: real -> string)

  /** `row[i]` */
  function CellAt(cells: seq<Cell>, i: int): (c: Cell)
    ensures !(0 <= i < |cells|) ==> c == Empty
  {
    if 0 <= i < |cells| then cells[i] else Empty
  }

  /** `String(cell)` */
  function CellText(c: Cell, rt: Runtime): string {
    match c
    case Num(x) => rt.numText(x)
    case Text(s) => s
    case Empty => "undefined"
  }

  /** `!cell`: zero, the empty string and `undefined` are falsy. */
  predicate Falsy(c: Cell) {
    c == Num(0.0) || c == Text("") || c == Empty
  }

  /** `rows.slice(k)` */
  function Slice<T>(s: seq<T>, k: int): (r: seq<T>)
    ensures 0 <= k <= |s| ==> r == s[k..]
  {
    if k < 0 then (if -k >= |s| then s else s[|s| + k..])
    else if k >= |s| then []
    else s[k..]
  }

  // ---------------------------------------------------------------------
  // Column labels and the per-cell scan of a header row
  // ---------------------------------------------------------------------

  predicate IsDateLabel(t: string) {
    Contains(t, "date") && !Contains(t, "value")
  }

  predicate IsDebitLabel(t: string) {
    Contains(t, "debit") || Contains(t, "dr")
  }

  predicate IsCreditLabel(t: string) {
    Contains(t, "credit") || Contains(t, "cr")
  }

  predicate IsReceiverLabel(t: string) {
    Contains(t, "description") || Contains(t, "narration") || Contains(t, "remark")
  }

  datatype ColumnKind = DateColumn | DebitColumn | CreditColumn | ReceiverColumn

  /** The test that assigns a column of the given kind. */
  predicate Labels(kind: ColumnKind, t: string) {
    match kind
    case DateColumn => IsDateLabel(t)
    case DebitColumn => IsDebitLabel(t)
    case CreditColumn => IsCreditLabel(t)
    case ReceiverColumn => IsReceiverLabel(t)
  }

  /** `dateIdx`, `debitIdx`, `creditIdx` and `receiverIdx`; -1 is unset. */
  datatype Columns = Columns(date: int, debit: int, credit: int, receiver: int)
  {
    function Get(kind: ColumnKind): int {
      match kind
      case DateColumn => date
      case DebitColumn => debit
      case CreditColumn => credit
      case ReceiverColumn => receiver
    }
  }

  const UNSET := Columns(-1, -1, -1, -1)

  /** The stopping test: a date column and a debit or credit column. */
  predicate Usable(c: Columns) {
    c.date != -1 && (c.debit != -1 || c.credit != -1)
  }

  /** `String(cell).toLowerCase()` for every cell of a row. */
  function Texts(cells: seq<Cell>, rt: Runtime): (ts: seq<string>)
    ensures |ts| == |cells|
    ensures forall i :: 0 <= i < |cells| ==> ts[i] == Lower(CellText(cells[i], rt))
  {
    seq(|cells|, i requires 0 <= i < |cells| => Lower(CellText(cells[i], rt)))
  }

  /** The columns after the `forEach` over a header row's texts, starting
      from c: every cell passing a test overwrites that test's index. */
  function AssignColumns(texts: seq<string>, c: Columns): Columns
    decreases |texts|
  {
    if texts == [] then c
    else
      var n := |texts| - 1;
      var prev := AssignColumns(texts[..n], c);
      var t := texts[n];
      Columns(
        if IsDateLabel(t) then n else prev.date,
        if IsDebitLabel(t) then n else prev.debit,
        if IsCreditLabel(t) then n else prev.credit,
        if IsReceiverLabel(t) then n else prev.receiver)
  }

  /** The last matching cell wins; a column no cell matches keeps the
      index it had before the row (it is not reset). */
  lemma {:induction false} LastMatchWins(texts: seq<string>, c: Columns, kind: ColumnKind)
    ensures var k := AssignColumns(texts, c).Get(kind);
            if exists i :: 0 <= i < |texts| && Labels(kind, texts[i])
            then 0 <= k < |texts| && Labels(kind, texts[k])
                 && forall j :: k < j < |texts| ==> !Labels(kind, texts[j])
            else k == c.Get(kind)
    decreases |texts|
  {
    if texts != [] {
      var n := |texts| - 1;
      LastMatchWins(texts[..n], c, kind);
      assert forall i :: 0 <= i < n ==> texts[..n][i] == texts[i];
      if !Labels(kind, texts[n]) {
        if exists i :: 0 <= i < |texts| && Labels(kind, texts[i]) {
          var i :| 0 <= i < |texts| && Labels(kind, texts[i]);
          assert i < n && Labels(kind, texts[..n][i]);
        }
      }
    }
  }

  /** One more cell: each index moves to the new cell's position when it
      matches, and stays otherwise. */
  lemma AssignColumnsStep(texts: seq<string>, c: Columns, t: string)
    ensures var prev := AssignColumns(texts, c);
            AssignColumns(texts + [t], c) == Columns(
              if IsDateLabel(t) then |texts| else prev.date,
              if IsDebitLabel(t) then |texts| else prev.debit,
              if IsCreditLabel(t) then |texts| else prev.credit,
              if IsReceiverLabel(t) then |texts| else prev.receiver)
  {
    assert (texts + [t])[..|texts|] == texts;
  }

  /** The `forEach` of lines 33-39: the four indices are updated cell by
      cell. */
  method ScanHeaderCells(cells: seq<Cell>, rt: Runtime, c: Columns) returns (result: Columns)
    ensures result == AssignColumns(Texts(cells, rt), c)
  {
    var dateIdx, debitIdx, creditIdx, receiverIdx := c.date, c.debit, c.credit, c.receiver;
    ghost var texts := Texts(cells, rt);
    for i := 0 to |cells|
      invariant AssignColumns(texts[..i], c) == Columns(dateIdx, debitIdx, creditIdx, receiverIdx)
    {
      var txt := Lower(CellText(cells[i], rt));
      assert texts[..i + 1] == texts[..i] + [txt];
      AssignColumnsStep(texts[..i], c, txt);
      if IsDateLabel(txt) { dateIdx := i; }
      if IsDebitLabel(txt) { debitIdx := i; }
      if IsCreditLabel(txt) { creditIdx := i; }
      if IsReceiverLabel(txt) { receiverIdx := i; }
    }
    assert texts[..|cells|] == texts;
    result := Columns(dateIdx, debitIdx, creditIdx, receiverIdx);
  }

  // The label tests on the header words used below, one test at a time.

  lemma NoReceiverLabel(t: string)
    requires 'p' !in t && 'n' !in t && 'm' !in t
    ensures !IsReceiverLabel(t)
  {
    NotContainsMissingChar(t, "description", 'p');
    NotContainsMissingChar(t, "narration", 'n');
    NotContainsMissingChar(t, "remark", 'm');
  }

  lemma NoCreditLabel(t: string)
    requires 'c' !in t
    ensures !IsCreditLabel(t)
  {
    NotContainsMissingChar(t, "credit", 'c');
    NotContainsMissingChar(t, "cr", 'c');
  }

  lemma NoDebitLabel(t: string)
    requires 'b' !in t && 'r' !in t
    ensures !IsDebitLabel(t)
  {
    NotContainsMissingChar(t, "debit", 'b');
    NotContainsMissingChar(t, "dr", 'r');
  }

  /** Without a 'b' and without "dr", a text is no debit label. */
  lemma NoDebitLabelWithoutDr(t: string)
    requires 'b' !in t && forall i :: 0 <= i < |t| - 1 ==> !(t[i] == 'd' && t[i + 1] == 'r')
    ensures !IsDebitLabel(t)
  {
    NotContainsMissingChar(t, "debit", 'b');
    NotContainsPair(t, 'd', 'r');
  }

  lemma NoDateLabel(t: string)
    requires 'a' !in t
    ensures !IsDateLabel(t)
  {
    NotContainsMissingChar(t, "date", 'a');
  }

  lemma DateWordIsDate(t: string)
    requires t == "date"
    ensures IsDateLabel(t)
  {
    ContainsAt(t, "date", 0);
    NotContainsMissingChar(t, "value", 'v');
  }

  lemma DebitWordIsDebit(t: string)
    requires t == "debit"
    ensures IsDebitLabel(t)
  {
    ContainsAt(t, "debit", 0);
  }

  lemma CreditWordIsCredit(t: string)
    requires t == "credit"
    ensures IsCreditLabel(t)
  {
    ContainsAt(t, "credit", 0);
  }

  lemma DescriptionWordIsCredit(t: string)
    requires t == "description"
    ensures IsCreditLabel(t)
  {
    ContainsAt(t, "cr", 3);
  }

  lemma DescriptionWordIsNarration(t: string)
    requires t == "description"
    ensures IsReceiverLabel(t)
  {
    ContainsAt(t, "description", 0);
  }

  lemma ValueDateWordNotDate(t: string)
    requires t == "value date"
    ensures !IsDateLabel(t)
  {
    ContainsAt(t, "value", 0);
  }

  lemma WithdrawalWordNotDate(t: string)
    requires t == "withdrawal"
    ensures !IsDateLabel(t)
  {
    NotContainsMissingChar(t, "date", 'e');
  }

  lemma WithdrawalWordIsDebit(t: string)
    requires t == "withdrawal"
    ensures IsDebitLabel(t)
  {
    ContainsAt(t, "dr", 4);
  }

  /** "withdrawal" is a debit label through "dr", and no other. */
  lemma WithdrawalIsDebit(t: string)
    requires t == "withdrawal"
    ensures !IsDateLabel(t) && IsDebitLabel(t) && !IsCreditLabel(t) && !IsReceiverLabel(t)
  {
    WithdrawalWordNotDate(t);
    WithdrawalWordIsDebit(t);
    NoCreditLabel(t);
    NoReceiverLabel(t);
  }

  /** "description" is both a credit label, through "cr", and a
      narration label. */
  lemma DescriptionIsCreditAndNarration(t: string)
    requires t == "description"
    ensures !IsDateLabel(t) && !IsDebitLabel(t) && IsCreditLabel(t) && IsReceiverLabel(t)
  {
    NoDateLabel(t);
    NoDebitLabelWithoutDr(t);
    DescriptionWordIsCredit(t);
    DescriptionWordIsNarration(t);
  }

  /** "value date" is no date label, and no other label either. */
  lemma ValueDateMatchesNothing(t: string)
    requires t == "value date"
    ensures !IsDateLabel(t) && !IsDebitLabel(t) && !IsCreditLabel(t) && !IsReceiverLabel(t)
  {
    ValueDateWordNotDate(t);
    NoDebitLabel(t);
    NoCreditLabel(t);
    NoReceiverLabel(t);
  }

  lemma DebitMatchesDebit(t: string)
    requires t == "debit"
    ensures !IsDateLabel(t) && IsDebitLabel(t) && !IsCreditLabel(t) && !IsReceiverLabel(t)
  {
    NoDateLabel(t);
    DebitWordIsDebit(t);
    NoCreditLabel(t);
    NoReceiverLabel(t);
  }

  lemma DateMatchesDate(t: string)
    requires t == "date"
    ensures IsDateLabel(t) && !IsDebitLabel(t) && !IsCreditLabel(t) && !IsReceiverLabel(t)
  {
    DateWordIsDate(t);
    NoDebitLabel(t);
    NoCreditLabel(t);
    NoReceiverLabel(t);
  }

  lemma CreditMatchesCredit(t: string)
    requires t == "credit"
    ensures !IsDateLabel(t) && !IsDebitLabel(t) && IsCreditLabel(t) && !IsReceiverLabel(t)
  {
    NoDateLabel(t);
    NoDebitLabelWithoutDr(t);
    CreditWordIsCredit(t);
    NoReceiverLabel(t);
  }

  /** Indices carry over between candidate rows: a row "Value Date |
      Debit" sets only the debit column, which is not enough; a following
      row "Date | Credit" then completes the layout, and the debit index
      of the first row is kept. */
  lemma CarryOverExample(valueDate: string, debit: string, date: string, credit: string)
    requires valueDate == "value date" && debit == "debit" && date == "date" && credit == "credit"
    ensures AssignColumns([valueDate, debit], UNSET) == Columns(-1, 1, -1, -1)
    ensures !Usable(Columns(-1, 1, -1, -1))
    ensures AssignColumns([date, credit], Columns(-1, 1, -1, -1)) == Columns(0, 1, 1, -1)
    ensures Usable(Columns(0, 1, 1, -1))
  {
    ValueDateMatchesNothing(valueDate);
    DebitMatchesDebit(debit);
    DateMatchesDate(date);
    CreditMatchesCredit(credit);
    var first, second := [valueDate, debit], [date, credit];
    assert first[..1] == [valueDate] && [valueDate][..0] == [];
    assert AssignColumns([valueDate], UNSET) == UNSET;
    assert second[..1] == [date] && [date][..0] == [];
    assert AssignColumns([date], Columns(-1, 1, -1, -1)) == Columns(0, 1, -1, -1);
  }

  /** Four header cells with these label matches: date, credit, debit,
      then a cell that is both a credit and a narration label. */
  lemma LateCreditLabelWins(a: string, b: string, c: string, d: string)
    requires IsDateLabel(a) && !IsDebitLabel(a) && !IsCreditLabel(a) && !IsReceiverLabel(a)
    requires !IsDateLabel(b) && !IsDebitLabel(b) && IsCreditLabel(b) && !IsReceiverLabel(b)
    requires !IsDateLabel(c) && IsDebitLabel(c) && !IsCreditLabel(c) && !IsReceiverLabel(c)
    requires !IsDateLabel(d) && !IsDebitLabel(d) && IsCreditLabel(d) && IsReceiverLabel(d)
    ensures AssignColumns([a, b, c, d], UNSET) == Columns(0, 2, 3, 3)
  {
    AssignColumnsStep([], UNSET, a);
    assert [] + [a] == [a];
    AssignColumnsStep([a], UNSET, b);
    assert [a] + [b] == [a, b];
    AssignColumnsStep([a, b], UNSET, c);
    assert [a, b] + [c] == [a, b, c];
    AssignColumnsStep([a, b, c], UNSET, d);
    assert [a, b, c] + [d] == [a, b, c, d];
  }

  /** A "Description" column after the "Credit" column takes the credit
      index over, since "description" contains "cr": with the header
      "Date | Credit | Debit | Description" the credit amounts are read
      from the description cells. */
  lemma DescriptionShadowsCredit(date: string, credit: string, debit: string, description: string)
    requires date == "date" && credit == "credit" && debit == "debit" && description == "description"
    ensures AssignColumns([date, credit, debit, description], UNSET) == Columns(0, 2, 3, 3)
  {
    DateMatchesDate(date);
    CreditMatchesCredit(credit);
    DebitMatchesDebit(debit);
    DescriptionIsCreditAndNarration(description);
    LateCreditLabelWins(date, credit, debit, description);
  }

  // ---------------------------------------------------------------------
  // The header search
  // ---------------------------------------------------------------------

  /** The row text of line 28: the lower-cased cells joined by spaces. */
  function RowString(cells: seq<Cell>, rt: Runtime): string {
    Join(Texts(cells, rt), ' ')
  }

  predicate IsHeaderCandidate(cells: seq<Cell>, rt: Runtime) {
    var line := RowString(cells, rt);
    Contains(line, "date")
    && (Contains(line, "debit") || Contains(line, "credit") || Contains(line, "withdrawal"))
  }

  /** None of the words contains a space, so a row is a candidate exactly
      when one of its cells mentions "date" and one mentions "debit",
      "credit" or "withdrawal". */
  lemma HeaderCandidateByCells(cells: seq<Cell>, rt: Runtime)
    ensures IsHeaderCandidate(cells, rt)
            <==> (exists i :: 0 <= i < |cells| && Contains(Texts(cells, rt)[i], "date"))
                 && (exists i :: 0 <= i < |cells| &&
                       (Contains(Texts(cells, rt)[i], "debit") || Contains(Texts(cells, rt)[i], "credit")
                        || Contains(Texts(cells, rt)[i], "withdrawal")))
  {
    var ts := Texts(cells, rt);
    ContainsJoin(ts, ' ', "date");
    ContainsJoin(ts, ' ', "debit");
    ContainsJoin(ts, ' ', "credit");
    ContainsJoin(ts, ' ', "withdrawal");
  }

  /** The test of lines 28-31 on the joined row text. */
  lemma CandidateTest(cells: seq<Cell>, rt: Runtime, line: string)
    requires line == Join(Texts(cells, rt), ' ')
    ensures IsHeaderCandidate(cells, rt)
            == (Contains(line, "date")
                && (Contains(line, "debit") || Contains(line, "credit") || Contains(line, "withdrawal")))
  {
  }

  /** A row that is present and a header candidate. */
  predicate IsHeaderRow(row: Row, rt: Runtime) {
    row.Cells? && IsHeaderCandidate(row.cells, rt)
  }

  /** `headerRowIndex` (-1 while none is found) and the column indices. */
  datatype Search = Search(header: int, columns: Columns)

  /** `Math.min(rows.length, 20)` */
  function HeaderLimit(rows: seq<Row>): (n: nat)
    ensures n <= |rows| && n <= 20
    ensures n == |rows| || n == 20
  {
    if |rows| < 20 then |rows| else 20
  }

  /** One pass of the loop body for row r: null rows and non-candidates
      leave the columns alone; a candidate's cells update them, and the
      row becomes the header when they are then usable. */
  function VisitRow(row: Row, rt: Runtime, r: nat, c: Columns): Search {
    if !IsHeaderRow(row, rt) then Search(-1, c)
    else
      var c' := AssignColumns(Texts(row.cells, rt), c);
      if Usable(c') then Search(r, c') else Search(-1, c')
  }

  /** The loop state after rows 0..n-1, stopping at the first header. */
  function ScanRows(rows: seq<Row>, rt: Runtime, n: nat): Search
    requires n <= |rows|
    decreases n
  {
    if n == 0 then Search(-1, UNSET)
    else
      var s := ScanRows(rows, rt, n - 1);
      if s.header != -1 then s else VisitRow(rows[n - 1], rt, n - 1, s.columns)
  }

  /** The columns that rows 0..n-1 would set if the loop never stopped. */
  function Accumulated(rows: seq<Row>, rt: Runtime, n: nat): Columns
    requires n <= |rows|
    decreases n
  {
    if n == 0 then UNSET else VisitRow(rows[n - 1], rt, n - 1, Accumulated(rows, rt, n - 1)).columns
  }

  /** The accumulated columns are usable after row k. */
  ghost predicate UsableAfter(rows: seq<Row>, rt: Runtime, k: nat)
    requires k < |rows|
  {
    Usable(Accumulated(rows, rt, k + 1))
  }

  /** Visiting a row from unusable columns: the row becomes the header
      exactly when the columns become usable, and only a candidate can. */
  lemma VisitRowSpec(row: Row, rt: Runtime, r: nat, c: Columns)
    requires !Usable(c)
    ensures var v := VisitRow(row, rt, r, c);
            && (v.header == -1 || v.header == r)
            && (v.header == r <==> Usable(v.columns))
            && (v.header == r ==> IsHeaderRow(row, rt))
  {
  }

  /** While no header has been found, the loop state is the accumulated
      columns, and the next row is visited from them. */
  lemma ScanBeforeHeader(rows: seq<Row>, rt: Runtime, n: nat)
    requires 0 < n <= |rows|
    requires ScanRows(rows, rt, n - 1) == Search(-1, Accumulated(rows, rt, n - 1))
    ensures ScanRows(rows, rt, n) == VisitRow(rows[n - 1], rt, n - 1, Accumulated(rows, rt, n - 1))
    ensures Accumulated(rows, rt, n) == ScanRows(rows, rt, n).columns
  {
  }

  /** The header is the first row after which the accumulated columns are
      usable, and the columns are those accumulated up to and including
      it; indices from earlier, insufficient candidates carry over. With
      no such row there is no header and all rows have contributed. */
  lemma HeaderIsFirstUsable(rows: seq<Row>, rt: Runtime, n: nat)
    requires n <= |rows|
    ensures var s := ScanRows(rows, rt, n);
            if exists k :: 0 <= k < n && UsableAfter(rows, rt, k)
            then 0 <= s.header < n && Usable(Accumulated(rows, rt, s.header + 1))
                 && s.columns == Accumulated(rows, rt, s.header + 1)
                 && IsHeaderRow(rows[s.header], rt)
                 && forall j :: 0 <= j < s.header ==> !UsableAfter(rows, rt, j)
            else s == Search(-1, Accumulated(rows, rt, n))
  {
    if exists k :: 0 <= k < n && UsableAfter(rows, rt, k) {
      var h := FirstUsable(rows, rt, n);
      HeaderAt(rows, rt, h, n);
    } else {
      NoHeaderYet(rows, rt, n);
    }
  }

  /** No row before n has made the columns usable. */
  ghost predicate NoneUsableBefore(rows: seq<Row>, rt: Runtime, n: nat)
    requires n <= |rows|
  {
    forall k :: 0 <= k < n ==> !UsableAfter(rows, rt, k)
  }

  /** The first row after which the columns are usable. */
  lemma {:induction false} FirstUsable(rows: seq<Row>, rt: Runtime, n: nat) returns (h: nat)
    requires n <= |rows| && exists k :: 0 <= k < n && UsableAfter(rows, rt, k)
    ensures h < n && UsableAfter(rows, rt, h) && NoneUsableBefore(rows, rt, h)
    decreases n
  {
    if exists k :: 0 <= k < n - 1 && UsableAfter(rows, rt, k) {
      h := FirstUsable(rows, rt, n - 1);
    } else {
      h := n - 1;
    }
  }

  /** Without a usable row so far, the loop has found no header and holds
      the accumulated columns. */
  lemma {:induction false} NoHeaderYet(rows: seq<Row>, rt: Runtime, n: nat)
    requires n <= |rows| && NoneUsableBefore(rows, rt, n)
    ensures ScanRows(rows, rt, n) == Search(-1, Accumulated(rows, rt, n))
    decreases n
  {
    if n > 0 {
      NoHeaderYet(rows, rt, n - 1);
      var c := Accumulated(rows, rt, n - 1);
      assert !Usable(c) by {
        if n > 1 { assert !UsableAfter(rows, rt, n - 2); }
      }
      ScanBeforeHeader(rows, rt, n);
      VisitRowSpec(rows[n - 1], rt, n - 1, c);
      assert !UsableAfter(rows, rt, n - 1);
    }
  }

  /** The first usable row is the header, whatever follows it. */
  lemma HeaderAt(rows: seq<Row>, rt: Runtime, h: nat, n: nat)
    requires h < n <= |rows| && UsableAfter(rows, rt, h) && NoneUsableBefore(rows, rt, h)
    ensures ScanRows(rows, rt, n) == Search(h, Accumulated(rows, rt, h + 1))
    ensures IsHeaderRow(rows[h], rt)
  {
    NoHeaderYet(rows, rt, h);
    var c := Accumulated(rows, rt, h);
    assert !Usable(c) by {
      if h > 0 { assert !UsableAfter(rows, rt, h - 1); }
    }
    ScanBeforeHeader(rows, rt, h + 1);
    VisitRowSpec(rows[h], rt, h, c);
    ScanStays(rows, rt, h + 1, n);
  }

  /** Before the header is found, the next row is visited. */
  lemma ScanStep(rows: seq<Row>, rt: Runtime, r: nat, c: Columns)
    requires r < |rows| && ScanRows(rows, rt, r) == Search(-1, c)
    ensures ScanRows(rows, rt, r + 1) == VisitRow(rows[r], rt, r, c)
  {
  }

  /** Once the header is found the state no longer changes. */
  lemma {:induction false} ScanStays(rows: seq<Row>, rt: Runtime, n: nat, m: nat)
    requires n <= m <= |rows| && ScanRows(rows, rt, n).header != -1
    ensures ScanRows(rows, rt, m) == ScanRows(rows, rt, n)
    decreases m
  {
    if m > n {
      ScanStays(rows, rt, n, m - 1);
    }
  }

  // ---------------------------------------------------------------------
  // The layout
  // ---------------------------------------------------------------------

  /** The row before the first data row (-1: data from row 0) and the
      columns read. */
  datatype Layout = Layout(header: int, columns: Columns)

  /** The fixed layout of an OPay dump without header row. */
  const HEADLESS := Layout(-1, Columns(0, 3, 4, 2))

  /** How `processData` gets past its two strategies: with a layout;
      returning early at line 65; or with the `TypeError` raised at line
      53 when there is no first row to look at. */
  datatype Detection = Detected(layout: Layout) | Unrecognised | Crashed

  predicate MentionsYear(t: string) {
    Contains(t, "2024") || Contains(t, "2025") || Contains(t, "2026")
  }

  /** Lines 16-67: a header among the first twenty rows, otherwise the
      headless layout when cell (0,0) mentions 2024, 2025 or 2026. */
  function Detect(rows: seq<Row>, rt: Runtime): Detection {
    var s := ScanRows(rows, rt, HeaderLimit(rows));
    if s.header != -1 then Detected(Layout(s.header, s.columns))
    else if |rows| == 0 || rows[0].Missing? then Crashed
    else if MentionsYear(CellText(CellAt(rows[0].cells, 0), rt)) then Detected(HEADLESS)
    else Unrecognised
  }

  /** What the two strategies deliver: a header is one of the first twenty
      rows, a candidate, with usable columns; the headless layout is used
      only when no header row exists among them and cell (0,0) mentions a
      year; the early return happens exactly when neither applies. */
  lemma DetectSpec(rows: seq<Row>, rt: Runtime)
    ensures var d := Detect(rows, rt);
            && (d.Detected? && d.layout.header != -1 ==>
                  && 0 <= d.layout.header < HeaderLimit(rows)
                  && IsHeaderRow(rows[d.layout.header], rt)
                  && Usable(d.layout.columns))
            && (d.Detected? && d.layout.header == -1 ==>
                  d.layout == HEADLESS
                  && (forall k :: 0 <= k < HeaderLimit(rows) ==> !UsableAfter(rows, rt, k))
                  && MentionsYear(CellText(CellAt(rows[0].cells, 0), rt)))
            && (d.Crashed? <==>
                  (forall k :: 0 <= k < HeaderLimit(rows) ==> !UsableAfter(rows, rt, k))
                  && (|rows| == 0 || rows[0].Missing?))
    ensures (exists k :: 0 <= k < HeaderLimit(rows) && UsableAfter(rows, rt, k))
            ==> Detect(rows, rt).Detected? && Detect(rows, rt).layout.header != -1
    ensures (forall k :: 0 <= k < HeaderLimit(rows) ==> !UsableAfter(rows, rt, k))
            && |rows| > 0 && rows[0].Cells? ==>
              && ((Detect(rows, rt) == Detected(HEADLESS))
                  <==> MentionsYear(CellText(CellAt(rows[0].cells, 0), rt)))
              && ((Detect(rows, rt) == Unrecognised)
                  <==> !MentionsYear(CellText(CellAt(rows[0].cells, 0), rt)))
  {
    HeaderIsFirstUsable(rows, rt, HeaderLimit(rows));
  }

  /** Lines 16-46 as written: the mutable indices and the loop over the
      first twenty rows with its `break`. */
  method FindHeader(rows: seq<Row>, rt: Runtime) returns (headerRowIndex: int, cols: Columns)
    ensures Search(headerRowIndex, cols) == ScanRows(rows, rt, HeaderLimit(rows))
  {
    headerRowIndex := -1;
    var dateIdx, debitIdx, creditIdx, receiverIdx := -1, -1, -1, -1;
    var limit := if |rows| < 20 then |rows| else 20;
    var r := 0;
    while r < limit
      invariant 0 <= r <= limit && limit == HeaderLimit(rows)
      invariant headerRowIndex == -1
      invariant ScanRows(rows, rt, r) == Search(-1, Columns(dateIdx, debitIdx, creditIdx, receiverIdx))
    {
      var row := rows[r];
      ScanStep(rows, rt, r, Columns(dateIdx, debitIdx, creditIdx, receiverIdx));
      if row.Cells? {
        var rowString := Join(Texts(row.cells, rt), ' ');
        var candidate := Contains(rowString, "date")
           && (Contains(rowString, "debit") || Contains(rowString, "credit") || Contains(rowString, "withdrawal"));
        CandidateTest(row.cells, rt, rowString);
        if candidate {
          var c := ScanHeaderCells(row.cells, rt, Columns(dateIdx, debitIdx, creditIdx, receiverIdx));
          dateIdx, debitIdx, creditIdx, receiverIdx := c.date, c.debit, c.credit, c.receiver;
          if dateIdx != -1 && (debitIdx != -1 || creditIdx != -1) {
            headerRowIndex := r;
            ScanStays(rows, rt, r + 1, limit);
            break;
          }
        }
      }
      r := r + 1;
    }
    cols := Columns(dateIdx, debitIdx, creditIdx, receiverIdx);
  }

  /** Lines 16-67: the header search, then the headless fallback. */
  method DetectLayout(rows: seq<Row>, rt: Runtime) returns (d: Detection)
    ensures d == Detect(rows, rt)
  {
    var headerRowIndex, cols := FindHeader(rows, rt);
    if headerRowIndex != -1 {
      d := Detected(Layout(headerRowIndex, cols));
      return;
    }
    if |rows| == 0 || rows[0].Missing? {
      d := Crashed;
      return;
    }
    var col0 := CellText(CellAt(rows[0].cells, 0), rt);
    var mentionsYear := Contains(col0, "2024") || Contains(col0, "2025") || Contains(col0, "2026");
    assert mentionsYear == MentionsYear(col0);
    if mentionsYear {
      d := Detected(HEADLESS);
    } else {
      d := Unrecognised;
    }
  }

  // ---------------------------------------------------------------------
  // Amounts: `parseAmt`
  // ---------------------------------------------------------------------

  /** The longest prefix of decimal digits. */
  function LeadingDigits(s: string): (d: string)
    ensures |d| <= |s| && d == s[..|d|]
    ensures forall i :: 0 <= i < |d| ==> IsDigit(d[i])
    ensures |d| < |s| ==> !IsDigit(s[|d|])
  {
    if s != [] && IsDigit(s[0]) then [s[0]] + LeadingDigits(s[1..]) else []
  }

  function DigitValue(c: char): (d: nat)
    requires IsDigit(c)
    ensures d < 10
  {
    c as int - '0' as int
  }

  ghost predicate AllDigits(s: string) {
    forall i :: 0 <= i < |s| ==> IsDigit(s[i])
  }

  /** The value of a string of decimal digits. */
  function DigitsValue(ds: string): nat
    requires AllDigits(ds)
    decreases |ds|
  {
    if ds == [] then 0
    else DigitsValue(ds[..|ds| - 1]) * 10 + DigitValue(ds[|ds| - 1])
  }

  function Pow10(n: nat): (p: nat)
    ensures p > 0
  {
    if n == 0 then 1 else 10 * Pow10(n - 1)
  }

  /** The value of the digits after the decimal point. */
  function FractionValue(ds: string): real
    requires AllDigits(ds)
  {
    DigitsValue(ds) as real / Pow10(|ds|) as real
  }

  /** The unsigned part of the `parseFloat` grammar: digits and an
      optional '.' with more digits, the longest such prefix; None (NaN)
      when it has no digit. */
  function Unsigned(body: string): Option<real> {
    var whole := LeadingDigits(body);
    var rest := body[|whole|..];
    var fraction := if |rest| > 0 && rest[0] == '.' then LeadingDigits(rest[1..]) else "";
    if whole == [] && fraction == [] then None
    else Some(DigitsValue(whole) as real + FractionValue(fraction))
  }

  /** `parseFloat` on its decimal grammar: leading white space skipped and
      an optional sign before the unsigned part. */
  function ParseDecimal(s: string): Option<real> {
    var t := TrimStart(s);
    if |t| > 0 && t[0] == '-' then
      (match Unsigned(t[1..]) case None => None case Some(m) => Some(-m))
    else if |t| > 0 && t[0] == '+' then Unsigned(t[1..])
    else Unsigned(t)
  }

  /** `parseAmt(val)`: falsy cells, "--" and "-" are 0; a number is taken
      as it is; a string loses its commas and is read by `parseFloat`,
      NaN becoming 0. */
  function ParseAmount(v: Cell): real {
    if Falsy(v) || v == Text("--") || v == Text("-") then 0.0
    else
      match v
      case Num(x) => x
      case Text(s) => ParseText(s)
      case Empty => 0.0
  }

  /** `parseFloat(String(val).replace(/,/g, '')) || 0` */
  function ParseText(s: string): real {
    match ParseDecimal(RemoveAll(s, ','))
    case None => 0.0
    case Some(x) => x
  }

  lemma {:induction false} LeadingDigitsOfDigits(s: string, rest: string)
    requires AllDigits(s)
    requires rest == [] || !IsDigit(rest[0])
    ensures LeadingDigits(s + rest) == s
    decreases |s|
  {
    if s != [] {
      assert (s + rest)[1..] == s[1..] + rest;
      LeadingDigitsOfDigits(s[1..], rest);
    } else {
      assert s + rest == rest;
    }
  }

  lemma {:induction false} DigitsValueOfNat(n: nat)
    ensures AllDigits(NatToString(n))
    ensures DigitsValue(NatToString(n)) == n
    decreases n
  {
    if n >= 10 {
      DigitsValueOfNat(n / 10);
      var s := NatToString(n);
      assert s[..|s| - 1] == NatToString(n / 10);
    }
  }

  /** A digit string reads as the number it spells. */
  lemma UnsignedWhole(whole: string)
    requires AllDigits(whole) && whole != []
    ensures Unsigned(whole) == Some(DigitsValue(whole) as real)
  {
    LeadingDigitsOfDigits(whole, []);
    assert whole + [] == whole;
  }

  /** Digits, '.', and digits read as the decimal number they spell. */
  lemma UnsignedFraction(whole: string, fraction: string)
    requires AllDigits(whole) && AllDigits(fraction) && (whole != [] || fraction != [])
    ensures Unsigned(whole + "." + fraction)
            == Some(DigitsValue(whole) as real + FractionValue(fraction))
  {
    var rest := "." + fraction;
    var s := whole + rest;
    assert whole + "." + fraction == s;
    assert rest[0] == '.' && !IsDigit(rest[0]);
    LeadingDigitsOfDigits(whole, rest);
    assert s[|whole|..] == rest;
    assert rest[1..] == fraction;
    LeadingDigitsOfDigits(fraction, []);
    assert fraction + [] == fraction;
    UnsignedOfParts(s, whole, fraction);
  }

  lemma UnsignedOfParts(body: string, whole: string, fraction: string)
    requires LeadingDigits(body) == whole && AllDigits(fraction)
    requires |body| > |whole| && body[|whole|] == '.' && LeadingDigits(body[|whole| + 1..]) == fraction
    requires whole != [] || fraction != []
    ensures Unsigned(body) == Some(DigitsValue(whole) as real + FractionValue(fraction))
  {
    assert body[|whole|..][1..] == body[|whole| + 1..];
  }

  /** Text that starts with a digit skips the white space and sign steps. */
  lemma ParseDecimalFromDigit(s: string)
    requires s != [] && IsDigit(s[0])
    ensures ParseDecimal(s) == Unsigned(s)
  {
    assert !IsSpace(s[0]);
    TrimStartOfNonSpace(s);
  }

  /** A minus sign before a digit negates the value. */
  lemma ParseDecimalNegative(s: string)
    requires s != [] && IsDigit(s[0])
    ensures ParseDecimal("-" + s) == (match Unsigned(s) case None => None case Some(m) => Some(-m))
  {
    var m := "-" + s;
    assert m[0] == '-' && !IsSpace(m[0]);
    TrimStartOfNonSpace(m);
    assert m[1..] == s;
  }

  /** A text without commas is read by `parseFloat` as it is. */
  lemma ParseTextWithoutCommas(s: string)
    requires ',' !in s
    ensures ParseText(s) == match ParseDecimal(s) case None => 0.0 case Some(x) => x
  {
    RemoveAllAbsent(s, ',');
  }

  /** A text cell is 0 when it is one of the markers, and is read by
      `ParseText` otherwise. */
  lemma ParseAmountOfText(s: string)
    ensures ParseAmount(Text(s)) == if s == "" || s == "--" || s == "-" then 0.0 else ParseText(s)
  {
  }

  /** The decimal text of a whole number reads back as that number. */
  lemma ParseAmountOfNat(n: nat)
    ensures ParseAmount(Text(NatToString(n))) == n as real
  {
    var s := NatToString(n);
    DigitsValueOfNat(n);
    UnsignedWhole(s);
    ParseDecimalFromDigit(s);
    assert ',' !in s by { assert !IsDigit(','); }
    ParseTextWithoutCommas(s);
    assert s != "" && s != "--" && s != "-" by { assert s[0] != '-'; }
    ParseAmountOfText(s);
  }

  /** With a minus sign in front it reads as the negated number. */
  lemma ParseAmountOfNegative(n: nat)
    requires n > 0
    ensures ParseAmount(Text("-" + NatToString(n))) == -(n as real)
  {
    var s := NatToString(n);
    DigitsValueOfNat(n);
    UnsignedWhole(s);
    var m := "-" + s;
    assert m != "" && m != "-" && m != "--" by {
      if |s| == 1 { assert m[1] == s[0]; } else { assert |m| > 2; }
    }
    assert ',' !in m by { assert m[0] == '-' && forall i :: 1 <= i < |m| ==> m[i] == s[i - 1]; }
    ParseTextWithoutCommas(m);
    ParseAmountOfText(m);
    ParseDecimalNegative(s);
  }

  lemma {:induction false} RemoveAllAbsent(s: string, c: char)
    requires c !in s
    ensures RemoveAll(s, c) == s
    decreases |s|
  {
    if s != [] {
      RemoveAllAbsent(s[1..], c);
    }
  }

  lemma UnsignedNoDigit(body: string)
    requires forall i :: 0 <= i < |body| ==> !IsDigit(body[i])
    ensures Unsigned(body) == None
  {
    var rest := body[|LeadingDigits(body)|..];
    if |rest| > 0 && rest[0] == '.' {
      assert LeadingDigits(rest[1..]) == [];
    }
  }

  /** Text without a digit is NaN to `parseFloat`. */
  lemma ParseDecimalNoDigit(s: string)
    requires forall i :: 0 <= i < |s| ==> !IsDigit(s[i])
    ensures ParseDecimal(s) == None
  {
    var t := TrimStart(s);
    if |t| > 0 && (t[0] == '-' || t[0] == '+') {
      UnsignedNoDigit(t[1..]);
    } else {
      UnsignedNoDigit(t);
    }
  }

  /** The markers are not numbers to `parseFloat` either. */
  lemma MarkersAreNaN()
    ensures ParseDecimal("") == None && ParseDecimal("-") == None && ParseDecimal("--") == None
  {
    ParseDecimalNoDigit("");
    ParseDecimalNoDigit("-");
    ParseDecimalNoDigit("--");
  }

  lemma CommasLeaveMarker(s: string)
    requires var r := RemoveAll(s, ','); r == "" || r == "--" || r == "-"
    ensures ParseAmount(Text(s)) == ParseAmount(Text(RemoveAll(s, ',')))
  {
    var r := RemoveAll(s, ',');
    ParseAmountOfText(s);
    ParseAmountOfText(r);
    ParseDecimalNoDigit(r);
  }

  lemma CommasLeaveText(s: string)
    requires var r := RemoveAll(s, ','); r != "" && r != "--" && r != "-"
    ensures ParseAmount(Text(s)) == ParseAmount(Text(RemoveAll(s, ',')))
  {
    var r := RemoveAll(s, ',');
    MarkersHaveNoComma(s);
    assert s != "" && s != "--" && s != "-";
    ParseAmountOfText(s);
    ParseAmountOfText(r);
    ParseTextWithoutCommas(r);
  }

  lemma MarkersHaveNoComma(s: string)
    ensures s == "" || s == "-" || s == "--" ==> RemoveAll(s, ',') == s
  {
    if s == "" || s == "-" || s == "--" {
      assert forall i :: 0 <= i < |s| ==> s[i] == '-';
      RemoveAllAbsent(s, ',');
    }
  }

  /** Thousands separators do not matter. */
  lemma ParseAmountIgnoresCommas(s: string)
    ensures ParseAmount(Text(s)) == ParseAmount(Text(RemoveAll(s, ',')))
  {
    var r := RemoveAll(s, ',');
    if r == "" || r == "--" || r == "-" {
      CommasLeaveMarker(s);
    } else {
      CommasLeaveText(s);
    }
  }

  lemma {:induction false} RemoveAllAround(a: string, b: string, c: char)
    requires c !in a && c !in b
    ensures RemoveAll(a + [c] + b, c) == a + b
    decreases |a|
  {
    if a == [] {
      assert a + [c] + b == [c] + b;
      assert ([c] + b)[1..] == b;
      RemoveAllAbsent(b, c);
    } else {
      assert (a + [c] + b)[1..] == a[1..] + [c] + b;
      RemoveAllAround(a[1..], b, c);
      assert a + b == [a[0]] + (a[1..] + b);
    }
  }

  lemma ExampleDigits()
    ensures DigitsValue("1234") == 1234 && FractionValue("50") == 0.5
  {
    assert "1"[..0] == "" && "12"[..1] == "1" && "123"[..2] == "12" && "1234"[..3] == "123";
    assert DigitsValue("1") == 1 && DigitsValue("12") == 12 && DigitsValue("123") == 123;
    assert "5"[..0] == "" && "50"[..1] == "5";
    assert DigitsValue("50") == 50 && Pow10(2) == 100;
  }

  /** "1,234.50" is 1234.5. */
  lemma ParseAmountExample()
    ensures ParseAmount(Text("1,234.50")) == 1234.5
  {
    var cleaned := "1234" + "." + "50";
    ExampleCommas("1,234.50", cleaned);
    ExampleDecimal(cleaned);
    ParseAmountOfText("1,234.50");
  }

  lemma ExampleCommas(s: string, cleaned: string)
    requires s == "1,234.50" && cleaned == "1234" + "." + "50"
    ensures RemoveAll(s, ',') == cleaned
  {
    assert s == "1" + [','] + "234.50";
    RemoveAllAround("1", "234.50", ',');
  }

  lemma ExampleDecimal(cleaned: string)
    requires cleaned == "1234" + "." + "50"
    ensures ParseDecimal(cleaned) == Some(1234.5)
  {
    assert AllDigits("1234") && AllDigits("50");
    UnsignedFraction("1234", "50");
    ParseDecimalFromDigit(cleaned);
    ExampleDigits();
  }

  /** A number cell is its own amount, even when negative; the blank and
      dash markers are 0. */
  lemma ParseAmountSpecialCases(x: real)
    ensures ParseAmount(Num(x)) == x
    ensures ParseAmount(Text("--")) == 0.0 && ParseAmount(Text("-")) == 0.0
    ensures ParseAmount(Text("")) == 0.0 && ParseAmount(Empty) == 0.0
  {
  }

  // ---------------------------------------------------------------------
  // Extraction
  // ---------------------------------------------------------------------

  /** `String(dateStr)`, with a numeric cell first turned into a date. */
  function DateText(c: Cell, rt: Runtime): string {
    match c
    case Num(x) => rt.serialDate(x)
    case Text(s) => s
    case Empty => "undefined"
  }

  /** The callback of lines 74-107: null rows and rows with neither a debit
      nor a credit give nothing; a positive debit makes a debit of that
      amount, and anything else a credit of the credit amount. */
  function ExtractRow(row: Row, cols: Columns, rt: Runtime): (r: Option<RawTransaction>)
    ensures r.None? <==>
              row.Missing?
              || (ParseAmount(CellAt(row.cells, cols.debit)) == 0.0
                  && ParseAmount(CellAt(row.cells, cols.credit)) == 0.0)
    ensures r.Some? ==>
              var debit := ParseAmount(CellAt(row.cells, cols.debit));
              var credit := ParseAmount(CellAt(row.cells, cols.credit));
              && (r.value.txnType == Some(Debit) <==> debit > 0.0)
              && (r.value.txnType == Some(Credit) <==> debit <= 0.0)
              && r.value.amount == (if debit > 0.0 then debit else credit)
              && r.value.date == DateText(CellAt(row.cells, cols.date), rt)
              && r.value.description == "Imported OPay"
              && (Falsy(CellAt(row.cells, cols.receiver)) ==> r.value.receiver == "Unknown")
              && (!Falsy(CellAt(row.cells, cols.receiver)) ==>
                    r.value.receiver == CellText(CellAt(row.cells, cols.receiver), rt))
  {
    match row
    case Missing => None
    case Cells(cells) =>
      var debit := ParseAmount(CellAt(cells, cols.debit));
      var credit := ParseAmount(CellAt(cells, cols.credit));
      if debit == 0.0 && credit == 0.0 then None
      else
        var isExpense := debit > 0.0;
        var who := CellAt(cells, cols.receiver);
        Some(RawTransaction(
          date := DateText(CellAt(cells, cols.date), rt),
          amount := if isExpense then debit else credit,
          receiver := if Falsy(who) then "Unknown" else CellText(who, rt),
          description := "Imported OPay",
          txnType := Some(if isExpense then Debit else Credit)))
  }

  /** `.map(f).filter(item => item !== null)`: the values f gives, in order. */
  function Survivors<T, U>(xs: seq<T>, f: T -> Option<U>): seq<U>
    decreases |xs|
  {
    if xs == [] then []
    else
      var last := f(xs[|xs| - 1]);
      Survivors(xs[..|xs| - 1], f) + (if last.Some? then [last.value] else [])
  }

  /** Lines 86-108 over the data rows. */
  function ExtractRows(rows: seq<Row>, cols: Columns, rt: Runtime): seq<RawTransaction> {
    Survivors(rows, (row: Row) => ExtractRow(row, cols, rt))
  }

  /** Lines 72-108: extraction starts right after the header row. */
  function Extract(rows: seq<Row>, layout: Layout, rt: Runtime): seq<RawTransaction> {
    ExtractRows(Slice(rows, layout.header + 1), layout.columns, rt)
  }

  lemma {:induction false} SurvivorsAppend<T, U>(a: seq<T>, b: seq<T>, f: T -> Option<U>)
    ensures Survivors(a + b, f) == Survivors(a, f) + Survivors(b, f)
    decreases |b|
  {
    if b == [] {
      assert a + b == a;
    } else {
      var b' := b[..|b| - 1];
      assert (a + b)[..|a + b| - 1] == a + b';
      assert (a + b)[|a + b| - 1] == b[|b| - 1];
      SurvivorsAppend(a, b', f);
    }
  }

  lemma {:induction false} SurvivorsLength<T, U>(xs: seq<T>, f: T -> Option<U>)
    ensures |Survivors(xs, f)| <= |xs|
    decreases |xs|
  {
    if xs != [] {
      SurvivorsLength(xs[..|xs| - 1], f);
    }
  }

  lemma {:induction false} SurvivorsMembers<T, U>(xs: seq<T>, f: T -> Option<U>)
    ensures forall u :: u in Survivors(xs, f) <==> exists i :: 0 <= i < |xs| && f(xs[i]) == Some(u)
    decreases |xs|
  {
    if xs != [] {
      var init := xs[..|xs| - 1];
      SurvivorsMembers(init, f);
      forall u ensures u in Survivors(xs, f) <==> exists i :: 0 <= i < |xs| && f(xs[i]) == Some(u) {
        if exists i :: 0 <= i < |xs| && f(xs[i]) == Some(u) {
          var i :| 0 <= i < |xs| && f(xs[i]) == Some(u);
          if i < |init| {
            assert init[i] == xs[i];
          }
        }
        if u in Survivors(init, f) {
          var i :| 0 <= i < |init| && f(init[i]) == Some(u);
          assert xs[i] == init[i];
        }
      }
    }
  }

  lemma ExtractRowsAppend(a: seq<Row>, b: seq<Row>, cols: Columns, rt: Runtime)
    ensures ExtractRows(a + b, cols, rt) == ExtractRows(a, cols, rt) + ExtractRows(b, cols, rt)
  {
    SurvivorsAppend(a, b, (row: Row) => ExtractRow(row, cols, rt));
  }

  /** Survivors keep their order and nothing else appears: the row at
      position i, when it survives, is output number p, p being the
      number of survivors before it; and there are at most as many
      outputs as rows. */
  lemma ExtractRowsPosition(rows: seq<Row>, cols: Columns, rt: Runtime, i: nat)
    requires i < |rows|
    ensures |ExtractRows(rows, cols, rt)| <= |rows|
    ensures |ExtractRows(rows[..i], cols, rt)| <= |ExtractRows(rows[..i + 1], cols, rt)|
    ensures ExtractRow(rows[i], cols, rt).Some? ==>
              var p := |ExtractRows(rows[..i], cols, rt)|;
              p + 1 == |ExtractRows(rows[..i + 1], cols, rt)|
              && p < |ExtractRows(rows, cols, rt)|
              && ExtractRows(rows, cols, rt)[p] == ExtractRow(rows[i], cols, rt).value
    ensures ExtractRow(rows[i], cols, rt).None? ==>
              |ExtractRows(rows[..i], cols, rt)| == |ExtractRows(rows[..i + 1], cols, rt)|
  {
    var f := (row: Row) => ExtractRow(row, cols, rt);
    SurvivorsLength(rows, f);
    var pre := rows[..i + 1];
    assert pre[..i] == rows[..i] && pre[i] == rows[i];
    assert Survivors(pre, f) == Survivors(rows[..i], f) + (if f(rows[i]).Some? then [f(rows[i]).value] else []);
    assert rows == pre + rows[i + 1..];
    SurvivorsAppend(pre, rows[i + 1..], f);
  }

  /** Every output comes from a data row, and every surviving row is in
      the output. */
  lemma ExtractRowsMembers(rows: seq<Row>, cols: Columns, rt: Runtime)
    ensures forall t :: t in ExtractRows(rows, cols, rt) <==>
              exists i :: 0 <= i < |rows| && ExtractRow(rows[i], cols, rt) == Some(t)
  {
    var f := (row: Row) => ExtractRow(row, cols, rt);
    SurvivorsMembers(rows, f);
    forall t ensures t in ExtractRows(rows, cols, rt) <==>
                     exists i :: 0 <= i < |rows| && ExtractRow(rows[i], cols, rt) == Some(t)
    {
      if t in ExtractRows(rows, cols, rt) {
        var i :| 0 <= i < |rows| && f(rows[i]) == Some(t);
        assert ExtractRow(rows[i], cols, rt) == Some(t);
      }
    }
  }

  /** With non-negative amounts in the grid, every extracted transaction
      has a positive amount. A negative debit is not: "-500" in the debit
      column becomes a credit of whatever the credit column holds. */
  lemma ExtractedAmountPositive(row: Row, cols: Columns, rt: Runtime)
    requires ExtractRow(row, cols, rt).Some?
    requires ParseAmount(CellAt(row.cells, cols.debit)) >= 0.0
    requires ParseAmount(CellAt(row.cells, cols.credit)) >= 0.0
    ensures ExtractRow(row, cols, rt).value.amount > 0.0
  {
  }

  /** A negative debit with an empty credit becomes a credit of 0: the
      debit column reads "-n", which is neither falsy nor positive. */
  lemma NegativeDebitBecomesZeroCredit(date: string, n: nat, rt: Runtime)
    requires n > 0
    ensures ExtractRow(Cells([Text(date), Text("-" + NatToString(n)), Empty]), Columns(0, 1, 2, -1), rt)
            == Some(RawTransaction(date, 0.0, "Unknown", "Imported OPay", Some(Credit)))
  {
    ParseAmountOfNegative(n);
  }

  /** A row of an OPay dump read with the headless layout: date in
      column 0, counterparty in column 2, "400"-style debit in column 3,
      "--" in the credit column 4. */
  lemma HeadlessDebitRow(date: string, x: Cell, who: string, n: nat, rt: Runtime)
    requires n > 0 && who != ""
    ensures ExtractRow(Cells([Text(date), x, Text(who), Text(NatToString(n)), Text("--")]), HEADLESS.columns, rt)
            == Some(RawTransaction(date, n as real, who, "Imported OPay", Some(Debit)))
  {
    ParseAmountOfNat(n);
    ParseAmountSpecialCases(0.0);
  }

  // ---------------------------------------------------------------------
  // `processData`
  // ---------------------------------------------------------------------

  /** `processData(rows)`: on a detected layout the store holds the
      categorized extraction; on the early return and on the fault it is
      left as it was. `clock(i)` is the reading of `Date.now()` while
      record i is categorized. */
  method ProcessData(store: Store.TransactionStore, rows: seq<Row>, rt: Runtime, clock: nat -> nat)
    returns (d: Detection)
    modifies store
    ensures d == Detect(rows, rt)
    ensures d.Detected? ==>
              store.transactions == Categorizer.AutoCategorize(Extract(rows, d.layout, rt), clock)
    ensures !d.Detected? ==> store.transactions == old(store.transactions)
  {
    d := DetectLayout(rows, rt);
    if d.Detected? {
      var rawData := Extract(rows, d.layout, rt);
      var processed := Categorizer.AutoCategorize(rawData, clock);
      store.SetTransactions(processed);
    }
  }
}
