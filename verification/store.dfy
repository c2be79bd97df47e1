/** The database the backend writes through, as one object updated in
    place: the expense table, the category table, the merchant mappings and
    the upload directory. Its methods are the request handlers and scripts
    that write it (upload, category update and creation, the incremental
    import, the reset and the seed) and the monthly summary that reads it.
    Each loop is proved to compute the function that specifies it in
    `Ingest`, `Catalog` or `Summary`, where the properties of that function
    are proved. */
module Store {
  import opened Common
  import opened Ledger
  import opened Ingest
  import opened Catalog
  import opened Summary

  /** A field of a JSON request body; `JUndefined` when it is absent. */
  datatype Json = JUndefined | JNull | JBool(b: bool) | JNumber(n: real) | JString(s: string)

  /** JavaScript truthiness of a JSON value. */
  predicate Truthy(v: Json)
  {
    match v
    case JUndefined => false
    case JNull => false
    case JBool(b) => b
    case JNumber(n) => n != 0.0
    case JString(s) => s != ""
  }

  /** `parseInt(v)`: the value is converted to its string first, so a
      boolean, `null` or `undefined` gives NaN (None), and a number is
      printed in decimal, whose integer part parseInt reads: the number
      truncated toward zero. */
  function ParseIntJson(v: Json): (r: Option<int>)
    ensures v.JNumber? && v.n >= 0.0 ==> r.Some? && r.value as real <= v.n < r.value as real + 1.0
    ensures v.JNumber? && v.n < 0.0 ==> r.Some? && r.value as real - 1.0 < v.n <= r.value as real
    ensures v.JString? ==> r == ParseInt(v.s)
    ensures !v.JNumber? && !v.JString? ==> r.None?
  {
    match v
    case JNumber(n) => Some(if n >= 0.0 then n.Floor else -((-n).Floor))
    case JString(s) => ParseInt(s)
    case _ => None
  }

  /** What an HTTP handler answers: a body (status 200) or an error. */
  datatype Reply<T> = Served(body: T) | Refused(status: nat, error: string, details: Option<string>)

  /** The multipart upload request: the path multer stored the PDF under
      (None when no file was sent) and the `bank` form field. */
  datatype UploadRequest = UploadRequest(file: Option<string>, bank: Option<string>)

  /** What the parser process produced: its exit code (None when it was
      killed by a signal), its standard output read as JSON (`Err` with the
      message `JSON.parse` throws when that is not valid JSON) and its
      standard error text. */
  datatype ParserRun = ParserRun(code: Option<int>, output: Result<seq<RawTxn>>, stderr: string)

  const NoFileMessage := "Cannot read properties of undefined (reading 'path')"

  /** The message the upload answers when there is no parser for `bank`. */
  function NoParser(bank: string): string
  {
    "Parser for " + bank + " not found"
  }

  /** The category with that id, as `include: { category: true }` joins
      it; None for no id, or an id no category carries. */
  function CategoryById(cats: seq<Category>, id: Option<nat>): (c: Option<Category>)
    ensures c.Some? ==> c.value in cats && id == Some(c.value.id)
    ensures c.None? ==> id.None? || forall k :: 0 <= k < |cats| ==> cats[k].id != id.value
  {
    if id.None? || cats == [] then None
    else if cats[0].id == id.value then Some(cats[0])
    else
      var c := CategoryById(cats[1..], id);
      assert forall k :: 1 <= k < |cats| ==> cats[k] == cats[1..][k - 1];
      c
  }

  /** `findMany({ where: { month }, include: { category: true } })`: the
      month's expenses, in table order, with their categories. */
  function MonthJoined(rows: seq<Expense>, cats: seq<Category>, month: string): (js: seq<Joined>)
    ensures |js| <= |rows|
  {
    if rows == [] then []
    else
      var e := rows[|rows| - 1];
      MonthJoined(rows[..|rows| - 1], cats, month)
        + (if e.month == month then [Joined(e.amount, CategoryById(cats, e.categoryId))] else [])
  }

  /** The number of expenses of the month. */
  function CountMonth(rows: seq<Expense>, month: string): nat
  {
    if rows == [] then 0
    else CountMonth(rows[..|rows| - 1], month) + (if rows[|rows| - 1].month == month then 1 else 0)
  }

  /** The signed sum of the amounts of the month's expenses. */
  function AmountOfMonth(rows: seq<Expense>, month: string): real
  {
    if rows == [] then 0.0
    else AmountOfMonth(rows[..|rows| - 1], month) + (if rows[|rows| - 1].month == month then rows[|rows| - 1].amount else 0.0)
  }

  /** The position of the expense with that id, or -1. */
  function RowIndex(rows: seq<Expense>, id: int): (i: int)
    ensures -1 <= i < |rows|
    ensures i >= 0 ==> rows[i].id == id
    ensures i == -1 <==> forall k :: 0 <= k < |rows| ==> rows[k].id != id
  {
    if rows == [] then -1
    else if rows[0].id == id then 0
    else
      var i := RowIndex(rows[1..], id);
      assert forall k :: 1 <= k < |rows| ==> rows[k] == rows[1..][k - 1];
      if i == -1 then -1 else i + 1
  }

  /** The category id a category update asks for. */
  datatype Target = Clear | SetTo(id: int) | NotANumber

  /** `categoryId ? parseInt(categoryId) : null`. */
  function TargetOf(v: Json): (t: Target)
    ensures !Truthy(v) <==> t == Clear
    ensures t.SetTo? ==> ParseIntJson(v) == Some(t.id)
  {
    if !Truthy(v) then Clear
    else match ParseIntJson(v)
      case None => NotANumber
      case Some(n) => SetTo(n)
  }

  /** The category column a target writes; only meaningful for a target
      that exists. */
  function Column(t: Target): Option<nat>
  {
    if t.SetTo? && t.id >= 0 then Some(t.id) else None
  }

  /** The target is a category that exists (the foreign key holds). */
  predicate TargetExists(cats: seq<Category>, t: Target)
  {
    t == Clear || (t.SetTo? && exists k :: 0 <= k < |cats| && cats[k].id == t.id)
  }

  /** The upload loop stops at its first exception: later transactions
      change nothing. */
  lemma {:induction false} UploadStops(t: Table, txns: seq<RawTxn>, bank: string, fails: nat -> bool, k: nat)
    requires k <= |txns| && UploadRecords(t, txns[..k], bank, fails).error.Some?
    ensures UploadRecords(t, txns, bank, fails) == UploadRecords(t, txns[..k], bank, fails)
    decreases |txns|
  {
    if k < |txns| {
      var init := txns[..|txns| - 1];
      assert init[..k] == txns[..k];
      UploadStops(t, init, bank, fails, k);
    } else {
      assert txns[..k] == txns;
    }
  }

  /** The monthly summary counts every expense of the month once and adds
      up exactly their amounts. */
  lemma {:induction false} MonthJoinedTotals(rows: seq<Expense>, cats: seq<Category>, month: string)
    ensures |MonthJoined(rows, cats, month)| == CountMonth(rows, month)
    ensures SumAmounts(MonthJoined(rows, cats, month)) == AmountOfMonth(rows, month)
  {
    if rows != [] {
      var init := rows[..|rows| - 1];
      var e := rows[|rows| - 1];
      MonthJoinedTotals(init, cats, month);
      var js := MonthJoined(init, cats, month);
      if e.month == month {
        var j := Joined(e.amount, CategoryById(cats, e.categoryId));
        assert (js + [j])[..|js|] == js;
      } else {
        assert js + [] == js;
      }
    }
  }

  /** No category is named after a property an object literal inherits. */
  predicate OwnNames(cats: seq<Category>)
  {
    forall k :: 0 <= k < |cats| ==> !InheritedKey(cats[k].name)
  }

  /** With such names only, every joined expense of the month is reported. */
  lemma {:induction false} MonthJoinedReported(rows: seq<Expense>, cats: seq<Category>, month: string)
    requires OwnNames(cats)
    ensures forall k :: 0 <= k < |MonthJoined(rows, cats, month)| ==> Reported(MonthJoined(rows, cats, month)[k])
  {
    if rows != [] {
      var init := rows[..|rows| - 1];
      var e := rows[|rows| - 1];
      MonthJoinedReported(init, cats, month);
      var js := MonthJoined(init, cats, month);
      var all := MonthJoined(rows, cats, month);
      forall k | 0 <= k < |all| ensures Reported(all[k]) {
        if k < |js| {
          assert all[k] == js[k];
        } else {
          var c := CategoryById(cats, e.categoryId);
          assert all[k] == Joined(e.amount, c);
          if c.Some? {
            var i :| 0 <= i < |cats| && cats[i] == c.value;
          }
        }
      }
    }
  }

  /** The summary of a month: the counts of its groups add up to the number
      of the month's expenses whose category name is not an inherited
      property name, and their totals to the sum of those amounts. When no
      category has such a name, that is every expense of the month. */
  lemma MonthSummaryTotals(rows: seq<Expense>, cats: seq<Category>, month: string)
    ensures SumCounts(Summarize(MonthJoined(rows, cats, month))) == CountReported(MonthJoined(rows, cats, month))
    ensures CountReported(MonthJoined(rows, cats, month)) <= CountMonth(rows, month)
    ensures SumTotals(Summarize(MonthJoined(rows, cats, month))) == SumReported(MonthJoined(rows, cats, month))
    ensures OwnNames(cats) ==>
      && SumCounts(Summarize(MonthJoined(rows, cats, month))) == CountMonth(rows, month)
      && SumTotals(Summarize(MonthJoined(rows, cats, month))) == AmountOfMonth(rows, month)
  {
    var js := MonthJoined(rows, cats, month);
    MonthJoinedTotals(rows, cats, month);
    SummaryTotals(js);
    if OwnNames(cats) {
      MonthJoinedReported(rows, cats, month);
      AllReported(js);
    }
  }

  /** Replacing the element just appended. */
  lemma UpdateAppended(groups: seq<Group>, g: Group, g': Group)
    ensures (groups + [g])[|groups| := g'] == groups + [g']
  {
    assert forall k :: 0 <= k < |groups| ==> (groups + [g])[|groups| := g'][k] == groups[k];
  }

  lemma SummarizeStep(js: seq<Joined>, k: nat)
    requires k < |js|
    ensures Summarize(js[..k + 1]) == AddToSummary(Summarize(js[..k]), js[k])
  {
    assert js[..k + 1][..k] == js[..k];
  }

  /** One turn of the reduce: the group of the expense's label is created
      (with zero total and count and this expense's color) on first sight,
      then its total and count are raised. A label that is an inherited
      property name finds that property instead: the additions go to it,
      and the own groups stay as they are. */
  method AddExpense(groups: seq<Group>, j: Joined) returns (summary: seq<Group>)
    ensures summary == AddToSummary(groups, j)
  {
    summary := groups;
    var key := LabelOf(j);
    var i := GroupIndex(summary, key);
    if i < 0 && InheritedKey(key) {
      return;
    }
    if i < 0 {
      var created := Group(key, 0.0, 0, ColorOf(j));
      UpdateAppended(summary, created, created.(total := created.total + j.amount, count := created.count + 1));
      summary := summary + [created];
      i := |summary| - 1;
    }
    summary := summary[i := summary[i].(total := summary[i].total + j.amount, count := summary[i].count + 1)];
  }

  lemma ImportRecordsStep(mode: Mode, t: Table, recs: seq<RawTxn>, fails: nat -> bool, k: nat,
                          t1: Table, n: nat, t2: Table, inserted: bool)
    requires k < |recs|
    requires ImportRecords(mode, t, recs[..k], fails) == (t1, n)
    requires ImportStep(mode, t1, recs[k], fails(k)) == (t2, inserted)
    ensures ImportRecords(mode, t, recs[..k + 1], fails) == (t2, if inserted then n + 1 else n)
  {
    assert recs[..k + 1][..k] == recs[..k];
  }

  /** `ImportStep` case by case. */
  lemma ImportStepCases(mode: Mode, t1: Table, r: RawTxn, fail: bool)
    ensures var next := ImportStep(mode, t1, r, fail);
      && (mode.Incremental? && Stored(t1.rows, RawKey(r, ImportBank)) ==> next == (t1, false))
      && (ParseMonth(r.tarih).Err? || fail ==> next == (t1, false))
      && (!(mode.Incremental? && Stored(t1.rows, RawKey(r, ImportBank))) && ParseMonth(r.tarih).Ok? && !fail ==>
            next == (Table(t1.rows + [Expense(t1.nextId, r.tarih, r.aciklama, r.tutar, ImportBank, ParseMonth(r.tarih).value,
                                              CategoryFor(mode, r.aciklama))], t1.nextId + 1), true))
  {
  }

  lemma UploadRecordsStep(t: Table, txns: seq<RawTxn>, bank: string, fails: nat -> bool, k: nat)
    requires k < |txns|
    ensures UploadRecords(t, txns[..k + 1], bank, fails)
      == UploadStep(UploadRecords(t, txns[..k], bank, fails), txns[k], bank, fails(k))
  {
    assert txns[..k + 1][..k] == txns[..k];
  }

  /** A turn that throws ends the loop with its run. */
  lemma StopsAt(t: Table, txns: seq<RawTxn>, bank: string, fails: nat -> bool, k: nat, run: UploadRun)
    requires k < |txns| && run.error.Some?
    requires UploadRecords(t, txns[..k + 1], bank, fails) == run
    ensures UploadRecords(t, txns, bank, fails) == run
  {
    UploadStops(t, txns, bank, fails, k + 1);
  }

  /** `UploadStep` from a run without error, case by case. */
  lemma UploadStepCases(t1: Table, inserted: seq<Expense>, r: RawTxn, bank: string, fail: bool)
    ensures var next := UploadStep(UploadRun(t1, inserted, None), r, bank, fail);
      && (ParseMonth(r.tarih).Err? ==> next == UploadRun(t1, inserted, Some(ParseMonth(r.tarih).msg)))
      && (ParseMonth(r.tarih).Ok? && fail ==> next == UploadRun(t1, inserted, Some(StoreRejected)))
      && (ParseMonth(r.tarih).Ok? && !fail ==>
            var e := Expense(t1.nextId, r.tarih, r.aciklama, r.tutar, bank, ParseMonth(r.tarih).value, None);
            next == UploadRun(Table(t1.rows + [e], t1.nextId + 1), inserted + [e], None))
  {
  }

  /** Changing one row's category keeps the ids as they were. */
  lemma SetCategoryValid(t: Table, i: nat, c: Option<nat>)
    requires ValidTable(t) && i < |t.rows|
    ensures ValidTable(Table(t.rows[i := t.rows[i].(categoryId := c)], t.nextId))
  {
    var rows' := t.rows[i := t.rows[i].(categoryId := c)];
    assert forall k :: 0 <= k < |rows'| ==> rows'[k].id == t.rows[k].id;
  }

  /** Appending uncategorised rows with consecutive ids from the counter
      keeps the ids increasing and the expenses' foreign key. */
  lemma AppendUncategorised(t: Table, added: seq<Expense>, t': Table, cats: seq<Category>)
    requires t'.rows == t.rows + added && t'.nextId == t.nextId + |added|
    requires forall j :: 0 <= j < |added| ==> added[j].id == t.nextId + j && added[j].categoryId == None
    ensures ValidTable(t) ==> ValidTable(t')
    ensures RowsRefer(t.rows, cats) ==> RowsRefer(t'.rows, cats)
  {
    assert forall j :: 0 <= j < |t.rows| ==> t'.rows[j] == t.rows[j];
    assert forall j :: |t.rows| <= j < |t'.rows| ==> t'.rows[j] == added[j - |t.rows|];
  }

  /** The upload's rows carry no category and fresh increasing ids. */
  lemma UploadKeepsKeys(t: Table, txns: seq<RawTxn>, bank: string, fails: nat -> bool, cats: seq<Category>)
    ensures var u := UploadRecords(t, txns, bank, fails);
      && (ValidTable(t) ==> ValidTable(u.table))
      && (RowsRefer(t.rows, cats) ==> RowsRefer(u.table.rows, cats))
  {
    var u := UploadRecords(t, txns, bank, fails);
    UploadRecordsRows(t, txns, bank, fails);
    assert forall j :: 0 <= j < |u.inserted| ==> UploadedAs(u.inserted[j], txns[j], bank, t.nextId + j);
    AppendUncategorised(t, u.inserted, u.table, cats);
  }

  /** The incremental import keeps the expenses' foreign key when the
      mappings keep theirs: each new row carries a mapped id or none; and
      it keeps the ids increasing. */
  lemma ImportExistingKeys(t: Table, mappings: map<string, nat>, cats: seq<Category>,
                           dir: Option<seq<DirEntry>>, fails: (nat, nat) -> bool)
    requires ValidTable(t) && RowsRefer(t.rows, cats) && MappingsRefer(mappings, cats)
    ensures ValidTable(ImportExisting(t, mappings, dir, fails).0)
    ensures RowsRefer(ImportExisting(t, mappings, dir, fails).0.rows, cats)
  {
    if dir.Some? {
      var mode := Incremental(mappings);
      var (t', reports) := ImportFiles(mode, t, Selected(dir.value), fails);
      FilesExtend(mode, t, Selected(dir.value), fails);
      ExtendsValid(mode, t, t', Total(reports));
      forall j | 0 <= j < |t'.rows| && t'.rows[j].categoryId.Some?
        ensures HasId(cats, t'.rows[j].categoryId.value)
      {
        if j < |t.rows| {
          assert t'.rows[j] == t'.rows[..|t.rows|][j];
        }
      }
    }
  }

  /** After the reset every row is uncategorised, so the expenses' foreign
      key holds whatever the categories; the ids stay increasing. */
  lemma ClearAndReimportKeys(t: Table, cats: seq<Category>, dir: Option<seq<DirEntry>>, fails: (nat, nat) -> bool)
    ensures ValidTable(ClearAndReimport(t, dir, fails).0)
    ensures RowsRefer(ClearAndReimport(t, dir, fails).0.rows, cats)
  {
    if dir.Some? {
      var cleared := Table([], t.nextId);
      var (t', reports) := ImportFiles(Reset, cleared, Selected(dir.value), fails);
      FilesExtend(Reset, cleared, Selected(dir.value), fails);
      ExtendsValid(Reset, cleared, t', Total(reports));
    }
  }

  /** The "Araba" merge keeps the table invariants and the expenses'
      foreign key; the mappings' key survives exactly when no mapping
      points at "Araba". */
  lemma RetireKeys(t: Table, c: Catalog, mappings: map<string, nat>)
    requires ValidTable(t) && ValidCatalog(c) && RowsRefer(t.rows, c.cats) && MappingsRefer(mappings, c.cats)
    ensures var (c', rows') := Retire(c, t.rows);
      && ValidTable(Table(rows', t.nextId)) && ValidCatalog(c') && RowsRefer(rows', c'.cats)
      && (MappingsRefer(mappings, c'.cats) <==>
            forall d :: d in mappings ==> IdOfName(c.cats, MergedName) != Some(mappings[d]))
  {
    var i := NameIndex(c.cats, MergedName);
    if i >= 0 {
      MergedValid(c, i);
    }
    RetireRows(c, t.rows);
    RetireMappings(c, t.rows, mappings);
  }

  class Store {
    var rows: seq<Expense>
    var nextId: nat
    var cats: seq<Category>
    var nextCategoryId: nat
    /** Merchant mappings, unique by description. */
    var mappings: map<string, nat>
    /** The paths of the files in the upload directory. */
    var uploads: set<string>

    function Expenses(): Table
      reads this
    {
      Table(rows, nextId)
    }

    function Categories(): Catalog
      reads this
    {
      Catalog(cats, nextCategoryId)
    }

    /** Everything but the expense table. */
    function Others(): (Catalog, map<string, nat>, set<string>)
      reads this
    {
      (Categories(), mappings, uploads)
    }

    /** The tables' own invariants: increasing expense ids below the
        counter, unique category names and ids below theirs; and the two
        foreign keys into the categories, from the expenses and from the
        merchant mappings. */
    predicate Valid()
      reads this
    {
      && ValidTable(Expenses()) && ValidCatalog(Categories())
      && RowsRefer(rows, cats) && MappingsRefer(mappings, cats)
    }

    constructor ()
      ensures Valid()
      ensures rows == [] && cats == [] && mappings == map[] && uploads == {}
    {
      rows, nextId := [], 1;
      cats, nextCategoryId := [], 1;
      mappings, uploads := map[], {};
    }

    // ------------------------------------------------------------ upload

    /** `POST /api/upload`. Multer has stored the PDF before the handler
        runs. Without a file, reading its path throws (500). A missing bank
        or one without a parser is refused with 400, and the stored PDF
        stays where multer put it. Otherwise the parser runs; when it
        exits the PDF is deleted, whatever the exit code; a nonzero code
        answers 500 with the parser's error output; output that is not JSON
        answers 500; and the transactions are then inserted in order, with
        no dedup, until the first exception (which answers 500 and keeps
        the rows already inserted). */
    method Upload(req: UploadRequest, parsers: set<string>, run: ParserRun, fails: nat -> bool)
      returns (reply: Reply<seq<Expense>>)
      modifies this
      ensures cats == old(cats) && nextCategoryId == old(nextCategoryId) && mappings == old(mappings)
      ensures req.file.None? ==>
        reply == Refused(500, "Upload failed", Some(NoFileMessage))
        && rows == old(rows) && nextId == old(nextId) && uploads == old(uploads)
      ensures req.file.Some? && (req.bank.None? || req.bank == Some("")) ==>
        reply == Refused(400, "Bank selection is required", None)
        && rows == old(rows) && nextId == old(nextId) && uploads == old(uploads) + {req.file.value}
      ensures req.file.Some? && req.bank.Some? && req.bank != Some("") && req.bank.value !in parsers ==>
        reply == Refused(400, NoParser(req.bank.value), None)
        && rows == old(rows) && nextId == old(nextId) && uploads == old(uploads) + {req.file.value}
      ensures req.file.Some? && req.bank.Some? && req.bank != Some("") && req.bank.value in parsers ==>
        && uploads == old(uploads) - {req.file.value}
        && (run.code != Some(0) ==>
              reply == Refused(500, "Failed to parse PDF", Some(run.stderr)) && rows == old(rows) && nextId == old(nextId))
        && (run.code == Some(0) && run.output.Err? ==>
              reply == Refused(500, "Failed to parse transaction data", Some(run.output.msg))
              && rows == old(rows) && nextId == old(nextId))
        && (run.code == Some(0) && run.output.Ok? ==>
              var u := UploadRecords(old(Expenses()), run.output.value, req.bank.value, fails);
              && Expenses() == u.table
              && reply == if u.error.None? then Served(u.inserted)
                          else Refused(500, "Failed to parse transaction data", u.error))
      ensures old(Valid()) ==> Valid()
    {
      if req.file.None? {
        return Refused(500, "Upload failed", Some(NoFileMessage));
      }
      var pdfPath := req.file.value;
      uploads := uploads + {pdfPath};
      if req.bank.None? || req.bank == Some("") {
        return Refused(400, "Bank selection is required", None);
      }
      var bank := req.bank.value;
      if bank !in parsers {
        return Refused(400, NoParser(bank), None);
      }
      uploads := uploads - {pdfPath};
      if run.code != Some(0) {
        return Refused(500, "Failed to parse PDF", Some(run.stderr));
      }
      if run.output.Err? {
        return Refused(500, "Failed to parse transaction data", Some(run.output.msg));
      }
      UploadKeepsKeys(Expenses(), run.output.value, bank, fails, cats);
      var inserted, error := InsertAll(run.output.value, bank, fails);
      reply := if error.None? then Served(inserted) else Refused(500, "Failed to parse transaction data", error);
    }

    /** One turn of the upload's insert loop, after `prior` rows were
        created without error: derive the month and create the row, or
        report the exception that ends the loop. */
    method InsertOne(txn: RawTxn, bank: string, fail: bool, ghost prior: seq<Expense>)
      returns (created: Option<Expense>, error: Option<string>)
      modifies this
      ensures error.None? <==> created.Some?
      ensures UploadStep(UploadRun(old(Expenses()), prior, None), txn, bank, fail)
        == UploadRun(Expenses(), if created.Some? then prior + [created.value] else prior, error)
      ensures Others() == old(Others())
    {
      UploadStepCases(Expenses(), prior, txn, bank, fail);
      created, error := None, None;
      var month := ParseMonth(txn.tarih);
      if month.Err? {
        error := Some(month.msg);
        return;
      }
      if fail {
        error := Some(StoreRejected);
        return;
      }
      var expense := Expense(nextId, txn.tarih, txn.aciklama, txn.tutar, bank, month.value, None);
      rows, nextId := rows + [expense], nextId + 1;
      created := Some(expense);
    }

    /** The upload's insert loop: each transaction is created in order with
        the request's bank and no category, until the first exception. */
    method InsertAll(txns: seq<RawTxn>, bank: string, fails: nat -> bool)
      returns (inserted: seq<Expense>, error: Option<string>)
      modifies this
      ensures UploadRecords(old(Expenses()), txns, bank, fails) == UploadRun(Expenses(), inserted, error)
      ensures Others() == old(Others())
    {
      inserted, error := [], None;
      ghost var t0 := Expenses();
      var k := 0;
      while k < |txns|
        invariant 0 <= k <= |txns|
        invariant UploadRecords(t0, txns[..k], bank, fails) == UploadRun(Expenses(), inserted, None)
        invariant t0 == old(Expenses()) && Others() == old(Others())
      {
        UploadRecordsStep(t0, txns, bank, fails, k);
        var created, err := InsertOne(txns[k], bank, fails(k), inserted);
        if err.Some? {
          error := err;
          StopsAt(t0, txns, bank, fails, k, UploadRun(Expenses(), inserted, err));
          return;
        }
        inserted := inserted + [created.value];
        k := k + 1;
      }
      assert txns[..k] == txns;
    }

    // -------------------------------------------------- monthly summary

    /** `GET /api/summary/month/:month`: the reduce over the month's
        expenses. A key seen for the first time gets a group with total 0,
        count 0 and the color of this expense; then the amount is added and
        the count raised. */
    method MonthlySummary(month: string) returns (summary: seq<Group>)
      ensures summary == Summarize(MonthJoined(rows, cats, month))
    {
      var js := MonthJoined(rows, cats, month);
      summary := [];
      for k := 0 to |js|
        invariant summary == Summarize(js[..k])
      {
        summary := AddExpense(summary, js[k]);
        SummarizeStep(js, k);
      }
      assert js[..|js|] == js;
    }

    // ---------------------------------------------------------- categories

    /** `PUT /api/expenses/:id/category`: the expense with the parsed id
        gets the category asked for, or none when `categoryId` is falsy.
        An id that is not a number or names no expense, a category id that
        is not a number or names no category: the update throws and the
        handler answers 500 with nothing changed. Nothing is written to
        the merchant mappings. */
    method UpdateCategory(idParam: string, categoryId: Json) returns (reply: Reply<(Expense, Option<Category>)>)
      modifies this
      ensures nextId == old(nextId) && cats == old(cats) && nextCategoryId == old(nextCategoryId)
      ensures mappings == old(mappings) && uploads == old(uploads)
      ensures var id := ParseInt(idParam);
        var t := TargetOf(categoryId);
        reply.Served? <==> id.Some? && RowIndex(old(rows), id.value) >= 0 && TargetExists(cats, t)
      ensures reply.Refused? ==> reply == Refused(500, "Failed to update expense category", None) && rows == old(rows)
      ensures reply.Served? ==>
        var i := RowIndex(old(rows), ParseInt(idParam).value);
        var e := old(rows)[i].(categoryId := Column(TargetOf(categoryId)));
        && rows == old(rows)[i := e]
        && reply.body == (e, CategoryById(cats, e.categoryId))
      ensures old(Valid()) ==> Valid()
    {
      var id := ParseInt(idParam);
      var target := TargetOf(categoryId);
      if id.None? || target.NotANumber? {
        return Refused(500, "Failed to update expense category", None);
      }
      var i := RowIndex(rows, id.value);
      if i < 0 || !TargetExists(cats, target) {
        return Refused(500, "Failed to update expense category", None);
      }
      var e := rows[i].(categoryId := Column(target));
      if ValidTable(Expenses()) {
        SetCategoryValid(Expenses(), i, Column(target));
      }
      rows := rows[i := e];
      reply := Served((e, CategoryById(cats, e.categoryId)));
    }

    /** `POST /api/categories`: a category with a missing or taken name is
        refused with 500; otherwise it is created with the next id. */
    method AddCategory(name: Option<string>, color: Option<string>) returns (reply: Reply<Category>)
      modifies this
      ensures rows == old(rows) && nextId == old(nextId) && mappings == old(mappings) && uploads == old(uploads)
      ensures var (c, r) := CreateCategory(old(Categories()), name, color);
        && Categories() == c
        && reply == if r.Ok? then Served(r.value) else Refused(500, "Failed to create category", None)
      ensures old(Valid()) ==> Valid()
    {
      var (c, r) := CreateCategory(Categories(), name, color);
      if r.Ok? {
        RefersGrow(rows, mappings, cats, c.cats);
      }
      cats, nextCategoryId := c.cats, c.nextId;
      if r.Err? {
        return Refused(500, "Failed to create category", None);
      }
      reply := Served(r.value);
    }

    // --------------------------------------------------------- bulk import

    /** The body of the per-record loop: in incremental mode a row already
        stored under the same date, description, amount and bank is skipped;
        otherwise the month is derived (a date without '/' throws and the
        record is skipped) and the row created, with the mapped category in
        incremental mode, unless the store fails. */
    method ImportOne(mode: Mode, txn: RawTxn, fail: bool) returns (inserted: bool)
      modifies this
      ensures (Expenses(), inserted) == ImportStep(mode, old(Expenses()), txn, fail)
      ensures Others() == old(Others())
    {
      ImportStepCases(mode, Expenses(), txn, fail);
      inserted := false;
      var existing := mode.Incremental? && Stored(rows, RawKey(txn, ImportBank));
      if existing {
        return;
      }
      var month := ParseMonth(txn.tarih);
      if month.Err? || fail {
        return;
      }
      var category := CategoryFor(mode, txn.aciklama);
      rows := rows + [Expense(nextId, txn.tarih, txn.aciklama, txn.tutar, ImportBank, month.value, category)];
      nextId := nextId + 1;
      inserted := true;
    }

    /** The per-record loop of one file; `count` is the number of rows it
        created. */
    method ImportFile(mode: Mode, recs: seq<RawTxn>, fails: nat -> bool) returns (count: nat)
      modifies this
      ensures (Expenses(), count) == ImportRecords(mode, old(Expenses()), recs, fails)
      ensures Others() == old(Others())
    {
      count := 0;
      for k := 0 to |recs|
        invariant (Expenses(), count) == ImportRecords(mode, old(Expenses()), recs[..k], fails)
        invariant Others() == old(Others())
      {
        ghost var t1 := Expenses();
        var inserted := ImportOne(mode, recs[k], fails(k));
        ImportRecordsStep(mode, old(Expenses()), recs, fails, k, t1, count, Expenses(), inserted);
        if inserted {
          count := count + 1;
        }
      }
      assert recs[..|recs|] == recs;
    }

    /** The per-file loop: each readable file's records are imported and
        its count added to the total; an unreadable file is reported and
        skipped. */
    method ImportAll(mode: Mode, files: seq<FileContent>, fails: (nat, nat) -> bool)
      returns (reports: seq<Option<nat>>, total: nat)
      modifies this
      ensures (Expenses(), reports) == ImportFiles(mode, old(Expenses()), files, fails)
      ensures total == Total(reports)
      ensures Others() == old(Others())
    {
      reports, total := [], 0;
      for i := 0 to |files|
        invariant (Expenses(), reports) == ImportFiles(mode, old(Expenses()), files[..i], fails)
        invariant total == Total(reports)
        invariant Others() == old(Others())
      {
        assert files[..i + 1][..i] == files[..i];
        match files[i]
        case Unreadable =>
          reports := reports + [None];
        case Records(recs) =>
          var count := ImportFile(mode, recs, FileFails(fails, i));
          reports := reports + [Some(count)];
          total := total + count;
      }
      assert files[..|files|] == files;
    }

    /** `importExistingData()`: nothing happens without the directory;
        otherwise the selected files are imported with dedup and the
        merchant mappings. */
    method ImportExistingData(dir: Option<seq<DirEntry>>, fails: (nat, nat) -> bool) returns (outcome: ImportOutcome)
      modifies this
      ensures (Expenses(), outcome) == ImportExisting(old(Expenses()), old(mappings), dir, fails)
      ensures Others() == old(Others())
      ensures old(Valid()) ==> Valid()
    {
      if Valid() {
        ImportExistingKeys(Expenses(), mappings, cats, dir, fails);
      }
      if dir.None? {
        return NoDirectory;
      }
      var files := Selected(dir.value);
      var reports, total := ImportAll(Incremental(mappings), files, fails);
      outcome := Imported(reports, total);
    }

    /** `clearAndReimport()`: every expense is deleted; then, if the
        directory exists, the selected files are imported with neither
        dedup nor mappings. */
    method ClearAndReimportData(dir: Option<seq<DirEntry>>, fails: (nat, nat) -> bool) returns (outcome: ImportOutcome)
      modifies this
      ensures (Expenses(), outcome) == ClearAndReimport(old(Expenses()), dir, fails)
      ensures Others() == old(Others())
      ensures old(Valid()) ==> Valid()
    {
      ClearAndReimportKeys(Expenses(), cats, dir, fails);
      rows := [];
      if dir.None? {
        return NoDirectory;
      }
      var files := Selected(dir.value);
      var reports, total := ImportAll(Reset, files, fails);
      outcome := Imported(reports, total);
    }

    // ---------------------------------------------------------------- seed

    /** `seed()`: when "Araba" exists, "Araç" is upserted (an existing one
        is left as it is), Araba's expenses are repointed to it and Araba is
        deleted; then every default category is upserted in order. */
    method RunSeed()
      modifies this
      ensures (Categories(), rows) == Seed(old(Categories()), old(rows))
      ensures nextId == old(nextId) && mappings == old(mappings) && uploads == old(uploads)
      ensures old(Valid()) && (forall d :: d in mappings ==> IdOfName(old(cats), MergedName) != Some(mappings[d]))
        ==> Valid()
    {
      RetireMerged();
      UpsertDefaults();
    }

    /** The merge of "Araba" into "Araç", when "Araba" exists. */
    method RetireMerged()
      modifies this
      ensures (Categories(), rows) == Retire(old(Categories()), old(rows))
      ensures nextId == old(nextId) && mappings == old(mappings) && uploads == old(uploads)
      ensures old(Valid()) ==>
        (Valid() <==> forall d :: d in mappings ==> IdOfName(old(cats), MergedName) != Some(mappings[d]))
    {
      if Valid() {
        RetireKeys(Expenses(), Categories(), mappings);
      }
      var i := NameIndex(cats, MergedName);
      if i >= 0 {
        var retired := cats[i];
        var (c1, carId) := UpsertByName(Categories(), CarName, CarColor);
        rows := Repoint(rows, retired.id, carId);
        cats, nextCategoryId := c1.cats[..i] + c1.cats[i + 1..], c1.nextId;
      }
    }

    /** The upsert loop over the default categories, in order. */
    method UpsertDefaults()
      modifies this
      ensures Categories() == SeedDefaults(old(Categories()), Defaults)
      ensures rows == old(rows) && nextId == old(nextId)
      ensures mappings == old(mappings) && uploads == old(uploads)
      ensures old(Valid()) ==> Valid()
    {
      if Valid() {
        SeedDefaultsValid(Categories(), Defaults);
        SeedDefaultsPrefix(Categories(), Defaults);
        RefersGrow(rows, mappings, cats, SeedDefaults(Categories(), Defaults).cats);
      }
      for k := 0 to |Defaults|
        invariant Categories() == SeedDefaults(old(Categories()), Defaults[..k])
        invariant rows == old(rows) && nextId == old(nextId)
        invariant mappings == old(mappings) && uploads == old(uploads)
      {
        assert Defaults[..k + 1][..k] == Defaults[..k];
        var (c, _) := UpsertByName(Categories(), Defaults[k].name, Defaults[k].color);
        cats, nextCategoryId := c.cats, c.nextId;
      }
      assert Defaults[..|Defaults|] == Defaults;
    }
  }
}
