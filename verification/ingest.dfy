/** How parsed transactions become stored expense rows. Three code paths
    write rows:
      - the upload handler inserts every parsed transaction of one statement,
        in order, with no duplicate check, and stops at the first failure;
      - the incremental import walks the `*_harcamalar.json` files, skips a
        record whose (date, description, amount, 'isbank') key is already
        stored, and copies the category of the merchant mapping for the
        record's exact description;
      - the full reset deletes every expense and then inserts every record of
        those files with neither dedup nor mapping.
    The two bulk paths share their loops; they differ only in the per-record
    step, selected by `Mode`. Store failures are an oracle `fails` over
    (file index, record index): a failing lookup or create writes nothing. */
module Ingest {
  import opened Common
  import opened Ledger

  /** The expense table: rows in insertion order and the next id the
      autoincrement column hands out. */
  datatype Table = Table(rows: seq<Expense>, nextId: nat)

  /** Ids are handed out in increasing order and all lie below `nextId`. */
  predicate ValidTable(t: Table)
  {
    && (forall i :: 0 <= i < |t.rows| ==> t.rows[i].id < t.nextId)
    && (forall i, j :: 0 <= i < j < |t.rows| ==> t.rows[i].id < t.rows[j].id)
  }

  /** `prisma.expense.create`: append a row carrying the next id. */
  function Insert(t: Table, date: string, description: string, amount: real,
                  bank: string, month: string, categoryId: Option<nat>): (t': Table)
    ensures ValidTable(t) ==> ValidTable(t')
    ensures t'.rows == t.rows + [Expense(t.nextId, date, description, amount, bank, month, categoryId)]
    ensures t'.nextId == t.nextId + 1
  {
    Table(t.rows + [Expense(t.nextId, date, description, amount, bank, month, categoryId)], t.nextId + 1)
  }

  /** Some stored row carries key `k` (`findFirst` returns a row). */
  predicate Stored(rows: seq<Expense>, k: Key)
  {
    exists i :: 0 <= i < |rows| && KeyOf(rows[i]) == k
  }

  /** `merchantMapping.findUnique({ description })`: exact-string match. */
  function Lookup(mappings: map<string, nat>, description: string): Option<nat>
  {
    if description in mappings then Some(mappings[description]) else None
  }

  // ----------------------------------------------------------- bulk import

  /** The bank tag both bulk paths write. */
  const ImportBank := "isbank"

  /** The file-name suffix that marks a parsed statement in the directory. */
  const FileSuffix := "_harcamalar.json"

  /** The incremental import dedups and maps; the reset does neither. */
  datatype Mode = Incremental(mappings: map<string, nat>) | Reset

  /** A directory entry: its name and, when it can be read and parsed as a
      list of records, those records. */
  datatype FileContent = Unreadable | Records(recs: seq<RawTxn>)
  datatype DirEntry = DirEntry(name: string, content: FileContent)

  /** What a bulk run reports: the directory was missing, or for each
      processed file its count of new rows (None: the file could not be read
      or parsed), and the sum of those counts. */
  datatype ImportOutcome = NoDirectory | Imported(perFile: seq<Option<nat>>, total: nat)

  /** The category a bulk path gives a new row. */
  function CategoryFor(mode: Mode, description: string): Option<nat>
  {
    if mode.Incremental? then Lookup(mode.mappings, description) else None
  }

  /** One record of a bulk run. The incremental mode first looks the key up
      and skips a stored one; then the month is derived (a date without '/'
      throws, which the per-record handler catches) and the row is created
      unless the store fails. The boolean says whether a row was created. */
  function ImportStep(mode: Mode, t: Table, r: RawTxn, fails: bool): (Table, bool)
  {
    if mode.Incremental? && Stored(t.rows, RawKey(r, ImportBank)) then (t, false)
    else match ParseMonth(r.tarih)
      case Err(_) => (t, false)
      case Ok(m) =>
        if fails then (t, false)
        else (Insert(t, r.tarih, r.aciklama, r.tutar, ImportBank, m, CategoryFor(mode, r.aciklama)), true)
  }

  /** The per-record loop of one file; the count is `importedCount`. */
  function ImportRecords(mode: Mode, t: Table, recs: seq<RawTxn>, fails: nat -> bool): (Table, nat)
    decreases |recs|
  {
    if recs == [] then (t, 0)
    else
      var (t1, n) := ImportRecords(mode, t, recs[..|recs| - 1], fails);
      var (t2, inserted) := ImportStep(mode, t1, recs[|recs| - 1], fails(|recs| - 1));
      (t2, if inserted then n + 1 else n)
  }

  /** The failure oracle restricted to file `i`. */
  function FileFails(fails: (nat, nat) -> bool, i: nat): nat -> bool
  {
    (k: nat) => fails(i, k)
  }

  /** The per-file loop: an unreadable file is reported and skipped. */
  function ImportFiles(mode: Mode, t: Table, files: seq<FileContent>, fails: (nat, nat) -> bool): (Table, seq<Option<nat>>)
    decreases |files|
  {
    if files == [] then (t, [])
    else
      var i := |files| - 1;
      var (t1, reports) := ImportFiles(mode, t, files[..i], fails);
      match files[i]
      case Unreadable => (t1, reports + [None])
      case Records(recs) =>
        var (t2, n) := ImportRecords(mode, t1, recs, FileFails(fails, i));
        (t2, reports + [Some(n)])
  }

  /** `readdirSync(...).filter(f => f.endsWith('_harcamalar.json'))`. */
  function Selected(entries: seq<DirEntry>): (files: seq<FileContent>)
    ensures |files| <= |entries|
  {
    if entries == [] then []
    else
      var rest := Selected(entries[..|entries| - 1]);
      var e := entries[|entries| - 1];
      if EndsWith(e.name, FileSuffix) then rest + [e.content] else rest
  }

  /** `totalImported`: the sum of the per-file counts. */
  function Total(reports: seq<Option<nat>>): nat
  {
    if reports == [] then 0
    else Total(reports[..|reports| - 1]) + (match reports[|reports| - 1] case None => 0 case Some(n) => n)
  }

  /** `importExistingData()` over the directory listing (None: the
      directory does not exist, and nothing happens). */
  function ImportExisting(t: Table, mappings: map<string, nat>, dir: Option<seq<DirEntry>>,
                          fails: (nat, nat) -> bool): (Table, ImportOutcome)
  {
    match dir
    case None => (t, NoDirectory)
    case Some(entries) =>
      var (t', reports) := ImportFiles(Incremental(mappings), t, Selected(entries), fails);
      (t', Imported(reports, Total(reports)))
  }

  /** `clearAndReimport()`: every expense is deleted first (the id counter
      keeps counting); a missing directory then ends the run. */
  function ClearAndReimport(t: Table, dir: Option<seq<DirEntry>>, fails: (nat, nat) -> bool): (Table, ImportOutcome)
  {
    var cleared := Table([], t.nextId);
    match dir
    case None => (cleared, NoDirectory)
    case Some(entries) =>
      var (t', reports) := ImportFiles(Reset, cleared, Selected(entries), fails);
      (t', Imported(reports, Total(reports)))
  }

  // ---------------------------------------------------------------- upload

  /** The state of the upload loop: the table, the rows created so far
      (`insertedTransactions`) and the exception that ended it, if any. */
  datatype UploadRun = UploadRun(table: Table, inserted: seq<Expense>, error: Option<string>)

  const StoreRejected := "store rejected the row"

  /** One turn of the upload loop: once an exception has been thrown
      nothing more happens; otherwise the month is derived (a date without
      '/' throws) and the row is created unless the store fails. */
  function UploadStep(run: UploadRun, r: RawTxn, bank: string, fails: bool): UploadRun
  {
    if run.error.Some? then run
    else match ParseMonth(r.tarih)
      case Err(msg) => UploadRun(run.table, run.inserted, Some(msg))
      case Ok(m) =>
        if fails then UploadRun(run.table, run.inserted, Some(StoreRejected))
        else
          UploadRun(Insert(run.table, r.tarih, r.aciklama, r.tutar, bank, m, None),
                    run.inserted + [Expense(run.table.nextId, r.tarih, r.aciklama, r.tutar, bank, m, None)], None)
  }

  /** The upload handler's insert loop: every transaction in order, with the
      request's bank, no dedup and no mapping. The first exception (a date
      without '/', or a failing create) ends the loop; rows created before it
      stay in the table. */
  function UploadRecords(t: Table, txns: seq<RawTxn>, bank: string, fails: nat -> bool): UploadRun
    decreases |txns|
  {
    if txns == [] then UploadRun(t, [], None)
    else UploadStep(UploadRecords(t, txns[..|txns| - 1], bank, fails), txns[|txns| - 1], bank, fails(|txns| - 1))
  }

  // ================================================================ lemmas

  /** The row shape both bulk paths produce. */
  predicate BulkRow(mode: Mode, e: Expense)
  {
    && e.bank == ImportBank
    && ParseMonth(e.date) == Ok(e.month)
    && e.categoryId == CategoryFor(mode, e.description)
  }

  /** `t'` is `t` with `n` rows appended, each of the bulk shape, carrying
      consecutive fresh ids; no existing row is changed or removed. */
  predicate Extends(mode: Mode, t: Table, t': Table, n: nat)
  {
    && |t'.rows| == |t.rows| + n
    && t'.rows[..|t.rows|] == t.rows
    && t'.nextId == t.nextId + n
    && forall j :: |t.rows| <= j < |t'.rows| ==>
         t'.rows[j].id == t.nextId + (j - |t.rows|) && BulkRow(mode, t'.rows[j])
  }

  lemma ExtendsTransitive(mode: Mode, t0: Table, t1: Table, t2: Table, a: nat, b: nat)
    requires Extends(mode, t0, t1, a) && Extends(mode, t1, t2, b)
    ensures Extends(mode, t0, t2, a + b)
  {
    assert t2.rows[..|t0.rows|] == t2.rows[..|t1.rows|][..|t0.rows|];
    forall j | |t0.rows| <= j < |t2.rows|
      ensures t2.rows[j].id == t0.nextId + (j - |t0.rows|) && BulkRow(mode, t2.rows[j])
    {
      if j < |t1.rows| {
        assert t2.rows[j] == t2.rows[..|t1.rows|][j];
      }
    }
  }

  /** Appending rows with consecutive ids from the counter keeps the ids
      increasing and below the advanced counter. */
  lemma ExtendsValid(mode: Mode, t: Table, t': Table, n: nat)
    requires ValidTable(t) && Extends(mode, t, t', n)
    ensures ValidTable(t')
  {
    forall j | 0 <= j < |t.rows| ensures t'.rows[j] == t.rows[j] {
      assert t'.rows[j] == t'.rows[..|t.rows|][j];
    }
  }

  lemma StepExtends(mode: Mode, t: Table, r: RawTxn, fails: bool)
    ensures var (t', ins) := ImportStep(mode, t, r, fails);
      Extends(mode, t, t', if ins then 1 else 0)
  {
    var (t', ins) := ImportStep(mode, t, r, fails);
    if ins {
      var m := ParseMonth(r.tarih).value;
      var e := Expense(t.nextId, r.tarih, r.aciklama, r.tutar, ImportBank, m, CategoryFor(mode, r.aciklama));
      assert t'.rows == t.rows + [e];
      AppendExtends(mode, t, e);
    } else {
      assert t' == t;
      assert t.rows[..|t.rows|] == t.rows;
    }
  }

  /** Appending one row of the bulk shape with the next id. */
  lemma AppendExtends(mode: Mode, t: Table, e: Expense)
    requires BulkRow(mode, e) && e.id == t.nextId
    ensures Extends(mode, t, Table(t.rows + [e], t.nextId + 1), 1)
  {
    assert (t.rows + [e])[..|t.rows|] == t.rows;
  }

  /** A file's loop only appends rows of the bulk shape, and the count it
      reports is the number of rows it appended. */
  lemma {:induction false} RecordsExtend(mode: Mode, t: Table, recs: seq<RawTxn>, fails: nat -> bool)
    ensures var (t', n) := ImportRecords(mode, t, recs, fails); Extends(mode, t, t', n)
    decreases |recs|
  {
    if recs == [] {
      assert t.rows[..|t.rows|] == t.rows;
    } else {
      var (t1, n) := ImportRecords(mode, t, recs[..|recs| - 1], fails);
      RecordsExtend(mode, t, recs[..|recs| - 1], fails);
      StepExtends(mode, t1, recs[|recs| - 1], fails(|recs| - 1));
      var (t2, ins) := ImportStep(mode, t1, recs[|recs| - 1], fails(|recs| - 1));
      ExtendsTransitive(mode, t, t1, t2, n, if ins then 1 else 0);
    }
  }

  /** A bulk run only appends rows of the bulk shape: existing rows are never
      modified or deleted, and `totalImported` is the number of rows
      appended. */
  lemma {:induction false} FilesExtend(mode: Mode, t: Table, files: seq<FileContent>, fails: (nat, nat) -> bool)
    ensures var (t', reports) := ImportFiles(mode, t, files, fails);
      |reports| == |files| && Extends(mode, t, t', Total(reports))
    decreases |files|
  {
    if files == [] {
      assert t.rows[..|t.rows|] == t.rows;
    } else {
      var i := |files| - 1;
      var (t1, reports) := ImportFiles(mode, t, files[..i], fails);
      FilesExtend(mode, t, files[..i], fails);
      match files[i]
      case Unreadable =>
        assert (reports + [None])[..|reports|] == reports;
      case Records(recs) =>
        var (t2, n) := ImportRecords(mode, t1, recs, FileFails(fails, i));
        RecordsExtend(mode, t1, recs, FileFails(fails, i));
        assert (reports + [Some(n)])[..|reports|] == reports;
        assert Total(reports + [Some(n)]) == Total(reports) + n;
        ExtendsTransitive(mode, t, t1, t2, Total(reports), n);
    }
  }

  // ------------------------------------------------- incremental dedup

  /** Every row from index `from` on has a key no earlier row has. */
  predicate FreshKeysFrom(rows: seq<Expense>, from: nat)
  {
    forall i, j :: 0 <= i < j < |rows| && from <= j ==> KeyOf(rows[i]) != KeyOf(rows[j])
  }

  lemma IncrementalStepFresh(mappings: map<string, nat>, t: Table, r: RawTxn, fails: bool)
    ensures FreshKeysFrom(ImportStep(Incremental(mappings), t, r, fails).0.rows, |t.rows|)
  {
    var (t', ins) := ImportStep(Incremental(mappings), t, r, fails);
    if ins {
      assert !Stored(t.rows, RawKey(r, ImportBank));
      assert KeyOf(t'.rows[|t.rows|]) == RawKey(r, ImportBank);
      forall i | 0 <= i < |t.rows| ensures KeyOf(t'.rows[i]) != KeyOf(t'.rows[|t.rows|]) {
        assert t'.rows[i] == t.rows[i];
      }
    }
  }

  lemma FreshKeysCompose(mode: Mode, t0: Table, t1: Table, t2: Table, a: nat, b: nat)
    requires Extends(mode, t0, t1, a) && Extends(mode, t1, t2, b)
    requires FreshKeysFrom(t1.rows, |t0.rows|) && FreshKeysFrom(t2.rows, |t1.rows|)
    ensures FreshKeysFrom(t2.rows, |t0.rows|)
  {
    forall i, j | 0 <= i < j < |t2.rows| && |t0.rows| <= j
      ensures KeyOf(t2.rows[i]) != KeyOf(t2.rows[j])
    {
      if j < |t1.rows| {
        assert t2.rows[i] == t1.rows[i] && t2.rows[j] == t1.rows[j];
      }
    }
  }

  lemma {:induction false} IncrementalRecordsFresh(mappings: map<string, nat>, t: Table, recs: seq<RawTxn>, fails: nat -> bool)
    ensures FreshKeysFrom(ImportRecords(Incremental(mappings), t, recs, fails).0.rows, |t.rows|)
    decreases |recs|
  {
    var mode := Incremental(mappings);
    if recs != [] {
      var (t1, n) := ImportRecords(mode, t, recs[..|recs| - 1], fails);
      IncrementalRecordsFresh(mappings, t, recs[..|recs| - 1], fails);
      RecordsExtend(mode, t, recs[..|recs| - 1], fails);
      StepExtends(mode, t1, recs[|recs| - 1], fails(|recs| - 1));
      IncrementalStepFresh(mappings, t1, recs[|recs| - 1], fails(|recs| - 1));
      var (t2, ins) := ImportStep(mode, t1, recs[|recs| - 1], fails(|recs| - 1));
      FreshKeysCompose(mode, t, t1, t2, n, if ins then 1 else 0);
    }
  }

  /** The incremental import never stores a key twice: every row it
      creates has a key that no earlier row has, including rows created
      earlier in the same run. */
  lemma {:induction false} IncrementalFilesFresh(mappings: map<string, nat>, t: Table, files: seq<FileContent>,
                                                 fails: (nat, nat) -> bool)
    ensures FreshKeysFrom(ImportFiles(Incremental(mappings), t, files, fails).0.rows, |t.rows|)
    decreases |files|
  {
    var mode := Incremental(mappings);
    if files != [] {
      var i := |files| - 1;
      var (t1, reports) := ImportFiles(mode, t, files[..i], fails);
      IncrementalFilesFresh(mappings, t, files[..i], fails);
      FilesExtend(mode, t, files[..i], fails);
      match files[i]
      case Unreadable =>
      case Records(recs) =>
        var (t2, n) := ImportRecords(mode, t1, recs, FileFails(fails, i));
        RecordsExtend(mode, t1, recs, FileFails(fails, i));
        IncrementalRecordsFresh(mappings, t1, recs, FileFails(fails, i));
        FreshKeysCompose(mode, t, t1, t2, Total(reports), n);
    }
  }

  /** If the stored keys were distinct, they still are after an
      incremental import. */
  lemma IncrementalKeepsKeysDistinct(mappings: map<string, nat>, t: Table, entries: seq<DirEntry>,
                                     fails: (nat, nat) -> bool)
    requires FreshKeysFrom(t.rows, 0)
    ensures FreshKeysFrom(ImportExisting(t, mappings, Some(entries), fails).0.rows, 0)
  {
    var mode := Incremental(mappings);
    var t' := ImportFiles(mode, t, Selected(entries), fails).0;
    FilesExtend(mode, t, Selected(entries), fails);
    IncrementalFilesFresh(mappings, t, Selected(entries), fails);
    forall i, j | 0 <= i < j < |t'.rows| ensures KeyOf(t'.rows[i]) != KeyOf(t'.rows[j]) {
      if j < |t.rows| {
        assert t'.rows[i] == t.rows[i] && t'.rows[j] == t.rows[j];
      }
    }
  }

  // ------------------------------------------- coverage and idempotence

  /** Record `k` of file `fi` exists and the file could be read. */
  predicate InFile(files: seq<FileContent>, fi: int, k: int)
  {
    0 <= fi < |files| && files[fi].Records? && 0 <= k < |files[fi].recs|
  }

  /** A record the store accepts: a well-formed date and no store failure. */
  predicate Accepted(r: RawTxn, fails: bool)
  {
    ParseMonth(r.tarih).Ok? && !fails
  }

  lemma StoredMonotone(t: Table, t': Table, mode: Mode, n: nat, k: Key)
    requires Extends(mode, t, t', n) && Stored(t.rows, k)
    ensures Stored(t'.rows, k)
  {
    var i :| 0 <= i < |t.rows| && KeyOf(t.rows[i]) == k;
    assert t'.rows[i] == t.rows[i];
  }

  /** Every record of one file that the store accepts has its key stored. */
  ghost predicate RecordsCovered(rows: seq<Expense>, recs: seq<RawTxn>, fails: nat -> bool)
  {
    forall k :: 0 <= k < |recs| && Accepted(recs[k], fails(k)) ==> Stored(rows, RawKey(recs[k], ImportBank))
  }

  lemma {:induction false} IncrementalRecordsCover(mappings: map<string, nat>, t: Table, recs: seq<RawTxn>, fails: nat -> bool)
    ensures RecordsCovered(ImportRecords(Incremental(mappings), t, recs, fails).0.rows, recs, fails)
    decreases |recs|
  {
    if recs != [] {
      var last := |recs| - 1;
      IncrementalRecordsCover(mappings, t, recs[..last], fails);
      CoveredStep(mappings, ImportRecords(Incremental(mappings), t, recs[..last], fails).0, recs, fails);
    }
  }

  /** The last record's turn keeps the earlier keys and stores its own. */
  lemma CoveredStep(mappings: map<string, nat>, t: Table, recs: seq<RawTxn>, fails: nat -> bool)
    requires recs != [] && RecordsCovered(t.rows, recs[..|recs| - 1], fails)
    ensures RecordsCovered(ImportStep(Incremental(mappings), t, recs[|recs| - 1], fails(|recs| - 1)).0.rows, recs, fails)
  {
    var mode := Incremental(mappings);
    var last := |recs| - 1;
    var t2 := ImportStep(mode, t, recs[last], fails(last)).0;
    forall k | 0 <= k < |recs| && Accepted(recs[k], fails(k)) ensures Stored(t2.rows, RawKey(recs[k], ImportBank)) {
      if k < last {
        assert recs[..last][k] == recs[k];
        StepKeepsStored(mode, t, recs[last], fails(last), RawKey(recs[k], ImportBank));
      } else {
        StepStores(mappings, t, recs[k], fails(k));
      }
    }
  }

  /** A turn never removes a stored key. */
  lemma StepKeepsStored(mode: Mode, t: Table, r: RawTxn, fails: bool, k: Key)
    requires Stored(t.rows, k)
    ensures Stored(ImportStep(mode, t, r, fails).0.rows, k)
  {
    var i :| 0 <= i < |t.rows| && KeyOf(t.rows[i]) == k;
    assert ImportStep(mode, t, r, fails).0.rows[i] == t.rows[i];
  }

  /** An accepted record's key is stored after its turn: it was already, or
      the turn appends it. */
  lemma StepStores(mappings: map<string, nat>, t: Table, r: RawTxn, fails: bool)
    requires Accepted(r, fails)
    ensures Stored(ImportStep(Incremental(mappings), t, r, fails).0.rows, RawKey(r, ImportBank))
  {
    var t' := ImportStep(Incremental(mappings), t, r, fails).0;
    if !Stored(t.rows, RawKey(r, ImportBank)) {
      assert KeyOf(t'.rows[|t.rows|]) == RawKey(r, ImportBank);
    }
  }

  /** Every key of a readable file's record that the store accepts is stored
      after the incremental import, whatever failed before or after it: a
      failing record does not stop its file and an unreadable file does not
      stop the later ones. */
  lemma {:induction false} IncrementalFilesCover(mappings: map<string, nat>, t: Table, files: seq<FileContent>,
                                                 fails: (nat, nat) -> bool)
    ensures var t' := ImportFiles(Incremental(mappings), t, files, fails).0;
      forall fi, k :: InFile(files, fi, k) && Accepted(files[fi].recs[k], fails(fi, k)) ==>
        Stored(t'.rows, RawKey(files[fi].recs[k], ImportBank))
    decreases |files|
  {
    var mode := Incremental(mappings);
    if files != [] {
      var i := |files| - 1;
      var (t1, reports) := ImportFiles(mode, t, files[..i], fails);
      IncrementalFilesCover(mappings, t, files[..i], fails);
      var t2 := ImportFiles(mode, t, files, fails).0;
      var n: nat;
      match files[i] {
        case Unreadable => n := 0;
          assert t1.rows[..|t1.rows|] == t1.rows;
        case Records(recs) =>
          RecordsExtend(mode, t1, recs, FileFails(fails, i));
          IncrementalRecordsCover(mappings, t1, recs, FileFails(fails, i));
          n := ImportRecords(mode, t1, recs, FileFails(fails, i)).1;
      }
      assert Extends(mode, t1, t2, n);
      forall fi, k | InFile(files, fi, k) && Accepted(files[fi].recs[k], fails(fi, k))
        ensures Stored(t2.rows, RawKey(files[fi].recs[k], ImportBank))
      {
        if fi < i {
          assert files[..i][fi] == files[fi];
          StoredMonotone(t1, t2, mode, n, RawKey(files[fi].recs[k], ImportBank));
        }
      }
    }
  }

  /** Every key of the files' well-dated records is already stored. */
  ghost predicate AllStored(rows: seq<Expense>, files: seq<FileContent>)
  {
    forall fi, k :: InFile(files, fi, k) && ParseMonth(files[fi].recs[k].tarih).Ok? ==>
      Stored(rows, RawKey(files[fi].recs[k], ImportBank))
  }

  function ZeroReports(files: seq<FileContent>): (reports: seq<Option<nat>>)
    ensures |reports| == |files| && Total(reports) == 0
  {
    if files == [] then []
    else
      var rest := ZeroReports(files[..|files| - 1]);
      rest + [if files[|files| - 1].Unreadable? then None else Some(0)]
  }

  lemma {:induction false} RecordsNoOp(mappings: map<string, nat>, t: Table, recs: seq<RawTxn>, fails: nat -> bool)
    requires forall k :: 0 <= k < |recs| && ParseMonth(recs[k].tarih).Ok? ==> Stored(t.rows, RawKey(recs[k], ImportBank))
    ensures ImportRecords(Incremental(mappings), t, recs, fails) == (t, 0)
    decreases |recs|
  {
    if recs != [] {
      var last := |recs| - 1;
      forall k | 0 <= k < last && ParseMonth(recs[..last][k].tarih).Ok?
        ensures Stored(t.rows, RawKey(recs[..last][k], ImportBank))
      {
        assert recs[..last][k] == recs[k];
      }
      RecordsNoOp(mappings, t, recs[..last], fails);
    }
  }

  /** When every well-dated record is already stored, the incremental import
      changes nothing and reports zero new rows for every readable file. */
  lemma {:induction false} FilesNoOp(mappings: map<string, nat>, t: Table, files: seq<FileContent>, fails: (nat, nat) -> bool)
    requires AllStored(t.rows, files)
    ensures ImportFiles(Incremental(mappings), t, files, fails) == (t, ZeroReports(files))
    decreases |files|
  {
    if files != [] {
      var i := |files| - 1;
      forall fi, k | InFile(files[..i], fi, k) && ParseMonth(files[..i][fi].recs[k].tarih).Ok?
        ensures Stored(t.rows, RawKey(files[..i][fi].recs[k], ImportBank))
      {
        assert files[..i][fi] == files[fi];
      }
      FilesNoOp(mappings, t, files[..i], fails);
      match files[i]
      case Unreadable =>
      case Records(recs) =>
        forall k | 0 <= k < |recs| && ParseMonth(recs[k].tarih).Ok?
          ensures Stored(t.rows, RawKey(recs[k], ImportBank))
        {
          assert files[i].recs[k] == recs[k];
        }
        RecordsNoOp(mappings, t, recs, FileFails(fails, i));
    }
  }

  /** Running the incremental import a second time over unchanged files,
      after a first run in which the store accepted every create, inserts
      nothing and leaves the ledger as it was, whatever fails the second
      time. */
  lemma ImportExistingIdempotent(t: Table, mappings: map<string, nat>, entries: seq<DirEntry>,
                                 fails: (nat, nat) -> bool)
    ensures var first := ImportExisting(t, mappings, Some(entries), (fi: nat, k: nat) => false);
      var second := ImportExisting(first.0, mappings, Some(entries), fails);
      second.0 == first.0 && second.1.Imported? && second.1.total == 0
  {
    var files := Selected(entries);
    var noFail := (fi: nat, k: nat) => false;
    var t1 := ImportFiles(Incremental(mappings), t, files, noFail).0;
    IncrementalFilesCover(mappings, t, files, noFail);
    assert AllStored(t1.rows, files);
    FilesNoOp(mappings, t1, files, fails);
  }

  // ------------------------------------------------------------ reset

  /** The records of the readable files that the store accepts, in order. */
  function AcceptedRecords(recs: seq<RawTxn>, fails: nat -> bool): seq<RawTxn>
  {
    if recs == [] then []
    else
      var last := |recs| - 1;
      AcceptedRecords(recs[..last], fails) + (if Accepted(recs[last], fails(last)) then [recs[last]] else [])
  }

  function AcceptedFiles(files: seq<FileContent>, fails: (nat, nat) -> bool): seq<RawTxn>
  {
    if files == [] then []
    else
      var i := |files| - 1;
      AcceptedFiles(files[..i], fails)
        + (match files[i] case Unreadable => [] case Records(recs) => AcceptedRecords(recs, FileFails(fails, i)))
  }

  /** Rows from index `from` on are the records `accepted`, one each, in
      order. */
  predicate RowsOf(rows: seq<Expense>, from: nat, accepted: seq<RawTxn>)
  {
    && from + |accepted| == |rows|
    && forall j :: 0 <= j < |accepted| ==>
         rows[from + j].date == accepted[j].tarih
         && rows[from + j].description == accepted[j].aciklama
         && rows[from + j].amount == accepted[j].tutar
  }

  lemma RowsOfAppend(rows: seq<Expense>, from: nat, a: seq<RawTxn>, rows': seq<Expense>, b: seq<RawTxn>)
    requires RowsOf(rows, from, a) && RowsOf(rows', |rows|, b) && rows'[..|rows|] == rows
    ensures RowsOf(rows', from, a + b)
  {
    forall j | 0 <= j < |a + b|
      ensures rows'[from + j].date == (a + b)[j].tarih
        && rows'[from + j].description == (a + b)[j].aciklama
        && rows'[from + j].amount == (a + b)[j].tutar
    {
      if j < |a| { assert rows'[from + j] == rows[from + j]; }
    }
  }

  lemma {:induction false} ResetRecordsRows(t: Table, recs: seq<RawTxn>, fails: nat -> bool)
    ensures RowsOf(ImportRecords(Reset, t, recs, fails).0.rows, |t.rows|, AcceptedRecords(recs, fails))
    decreases |recs|
  {
    if recs != [] {
      var last := |recs| - 1;
      var (t1, n) := ImportRecords(Reset, t, recs[..last], fails);
      ResetRecordsRows(t, recs[..last], fails);
      StepExtends(Reset, t1, recs[last], fails(last));
      var (t2, ins) := ImportStep(Reset, t1, recs[last], fails(last));
      RowsOfAppend(t1.rows, |t.rows|, AcceptedRecords(recs[..last], fails), t2.rows,
                   if Accepted(recs[last], fails(last)) then [recs[last]] else []);
    }
  }

  /** The reset path has no dedup: every accepted record of every readable
      file becomes a row of its own, in order, so a record repeated in the
      input is repeated in the ledger. */
  lemma {:induction false} ResetFilesRows(t: Table, files: seq<FileContent>, fails: (nat, nat) -> bool)
    ensures RowsOf(ImportFiles(Reset, t, files, fails).0.rows, |t.rows|, AcceptedFiles(files, fails))
    decreases |files|
  {
    if files == [] {
    } else {
      var i := |files| - 1;
      var (t1, reports) := ImportFiles(Reset, t, files[..i], fails);
      ResetFilesRows(t, files[..i], fails);
      match files[i]
      case Unreadable =>
        assert AcceptedFiles(files, fails) == AcceptedFiles(files[..i], fails) + [];
      case Records(recs) =>
        RecordsExtend(Reset, t1, recs, FileFails(fails, i));
        ResetRecordsRows(t1, recs, FileFails(fails, i));
        RowsOfAppend(t1.rows, |t.rows|, AcceptedFiles(files[..i], fails),
                     ImportFiles(Reset, t, files, fails).0.rows, AcceptedRecords(recs, FileFails(fails, i)));
    }
  }

  /** After the reset the ledger holds exactly the accepted records of the
      selected files, one row each and none categorised, and its size is the
      reported `totalImported`. */
  lemma ClearAndReimportRows(t: Table, entries: seq<DirEntry>, fails: (nat, nat) -> bool)
    ensures var (t', outcome) := ClearAndReimport(t, Some(entries), fails);
      && outcome.Imported?
      && |t'.rows| == outcome.total
      && RowsOf(t'.rows, 0, AcceptedFiles(Selected(entries), fails))
      && forall j :: 0 <= j < |t'.rows| ==> t'.rows[j].categoryId == None && t'.rows[j].bank == ImportBank
  {
    var cleared := Table([], t.nextId);
    FilesExtend(Reset, cleared, Selected(entries), fails);
    ResetFilesRows(cleared, Selected(entries), fails);
  }

  // ------------------------------------------------ incremental rows

  /** Some record of `kept` has key `k` under the bulk bank tag. */
  predicate HasKey(kept: seq<RawTxn>, k: Key)
  {
    exists j :: 0 <= j < |kept| && RawKey(kept[j], ImportBank) == k
  }

  /** The records of `recs` the incremental import keeps when `rows` were
      stored before the run and `kept` were kept earlier in it: those the
      store accepts whose key is neither stored nor the key of an earlier
      kept record, in order. */
  function KeepNew(rows: seq<Expense>, kept: seq<RawTxn>, recs: seq<RawTxn>, fails: nat -> bool): seq<RawTxn>
    decreases |recs|
  {
    if recs == [] then []
    else
      var last := |recs| - 1;
      var more := KeepNew(rows, kept, recs[..last], fails);
      var k := RawKey(recs[last], ImportBank);
      more + (if Accepted(recs[last], fails(last)) && !Stored(rows, k) && !HasKey(kept + more, k) then [recs[last]] else [])
  }

  /** The records of one file the incremental import keeps. */
  function NewRecords(rows: seq<Expense>, recs: seq<RawTxn>, fails: nat -> bool): seq<RawTxn>
  {
    KeepNew(rows, [], recs, fails)
  }

  /** The records of the readable files the incremental import keeps, file
      after file. */
  function NewFiles(rows: seq<Expense>, files: seq<FileContent>, fails: (nat, nat) -> bool): seq<RawTxn>
    decreases |files|
  {
    if files == [] then []
    else
      var i := |files| - 1;
      var prev := NewFiles(rows, files[..i], fails);
      prev + (match files[i] case Unreadable => [] case Records(recs) => KeepNew(rows, prev, recs, FileFails(fails, i)))
  }

  /** After appending the bulk rows of `kept`, a key is stored exactly when
      it was stored before or some kept record carries it. */
  lemma StoredAfter(mode: Mode, t0: Table, t: Table, kept: seq<RawTxn>, k: Key)
    requires Extends(mode, t0, t, |kept|) && RowsOf(t.rows, |t0.rows|, kept)
    ensures Stored(t.rows, k) <==> Stored(t0.rows, k) || HasKey(kept, k)
  {
    if Stored(t.rows, k) {
      var i :| 0 <= i < |t.rows| && KeyOf(t.rows[i]) == k;
      if i < |t0.rows| {
        assert t.rows[i] == t.rows[..|t0.rows|][i];
      } else {
        assert RawKey(kept[i - |t0.rows|], ImportBank) == k;
      }
    }
    if Stored(t0.rows, k) {
      var i :| 0 <= i < |t0.rows| && KeyOf(t0.rows[i]) == k;
      assert t.rows[i] == t.rows[..|t0.rows|][i];
    }
    if HasKey(kept, k) {
      var j :| 0 <= j < |kept| && RawKey(kept[j], ImportBank) == k;
      KeptRowKey(mode, t0, t, kept, j);
    }
  }

  /** The row appended for kept record `j` carries that record's key. */
  lemma KeptRowKey(mode: Mode, t0: Table, t: Table, kept: seq<RawTxn>, j: nat)
    requires Extends(mode, t0, t, |kept|) && RowsOf(t.rows, |t0.rows|, kept) && j < |kept|
    ensures KeyOf(t.rows[|t0.rows| + j]) == RawKey(kept[j], ImportBank)
  {
    assert BulkRow(mode, t.rows[|t0.rows| + j]);
  }

  /** `KeepNew` over one more record extends what it kept before. */
  lemma KeepNewLast(rows: seq<Expense>, kept: seq<RawTxn>, recs: seq<RawTxn>, fails: nat -> bool)
    requires recs != []
    ensures var last := |recs| - 1;
      var more := KeepNew(rows, kept, recs[..last], fails);
      var k := RawKey(recs[last], ImportBank);
      kept + KeepNew(rows, kept, recs, fails)
        == kept + more + (if Accepted(recs[last], fails(last)) && !Stored(rows, k) && !HasKey(kept + more, k) then [recs[last]] else [])
  {
  }

  /** One incremental turn appends exactly what `KeepNew` keeps for it. */
  lemma KeepNewStep(mappings: map<string, nat>, t0: Table, t1: Table, kept: seq<RawTxn>,
                    r: RawTxn, fails: bool)
    requires Extends(Incremental(mappings), t0, t1, |kept|) && RowsOf(t1.rows, |t0.rows|, kept)
    ensures var (t2, ins) := ImportStep(Incremental(mappings), t1, r, fails);
      var k := RawKey(r, ImportBank);
      && (ins <==> Accepted(r, fails) && !Stored(t0.rows, k) && !HasKey(kept, k))
      && RowsOf(t2.rows, |t0.rows|, kept + (if ins then [r] else []))
      && Extends(Incremental(mappings), t0, t2, |kept| + (if ins then 1 else 0))
  {
    var mode := Incremental(mappings);
    var (t2, ins) := ImportStep(mode, t1, r, fails);
    StoredAfter(mode, t0, t1, kept, RawKey(r, ImportBank));
    StepExtends(mode, t1, r, fails);
    ExtendsTransitive(mode, t0, t1, t2, |kept|, if ins then 1 else 0);
    if ins {
      assert t2.rows == t1.rows + [t2.rows[|t1.rows|]];
      RowsOfAppend(t1.rows, |t0.rows|, kept, t2.rows, [r]);
    } else {
      assert kept + [] == kept;
    }
  }

  /** The per-record loop in incremental mode appends exactly the records
      `KeepNew` keeps, in order, after those kept before it. */
  lemma {:induction false} KeepNewRows(mappings: map<string, nat>, t0: Table, t: Table, kept: seq<RawTxn>,
                                       recs: seq<RawTxn>, fails: nat -> bool)
    requires Extends(Incremental(mappings), t0, t, |kept|) && RowsOf(t.rows, |t0.rows|, kept)
    ensures var (t', n) := ImportRecords(Incremental(mappings), t, recs, fails);
      var more := KeepNew(t0.rows, kept, recs, fails);
      && RowsOf(t'.rows, |t0.rows|, kept + more)
      && Extends(Incremental(mappings), t0, t', |kept + more|)
      && n == |more|
    decreases |recs|
  {
    if recs == [] {
      assert kept + [] == kept;
    } else {
      var last := |recs| - 1;
      var more := KeepNew(t0.rows, kept, recs[..last], fails);
      KeepNewRows(mappings, t0, t, kept, recs[..last], fails);
      var t1 := ImportRecords(Incremental(mappings), t, recs[..last], fails).0;
      KeepNewStep(mappings, t0, t1, kept + more, recs[last], fails(last));
      KeepNewLast(t0.rows, kept, recs, fails);
    }
  }

  /** One file of the incremental import appends exactly its new records,
      in order, and reports their number. */
  lemma IncrementalRecordsRows(mappings: map<string, nat>, t: Table, recs: seq<RawTxn>, fails: nat -> bool)
    ensures var (t', n) := ImportRecords(Incremental(mappings), t, recs, fails);
      RowsOf(t'.rows, |t.rows|, NewRecords(t.rows, recs, fails)) && n == |NewRecords(t.rows, recs, fails)|
  {
    assert t.rows[..|t.rows|] == t.rows;
    KeepNewRows(mappings, t, t, [], recs, fails);
    assert [] + NewRecords(t.rows, recs, fails) == NewRecords(t.rows, recs, fails);
  }

  /** The incremental import appends exactly the new records of the
      readable files, in order. */
  lemma {:induction false} IncrementalFilesRows(mappings: map<string, nat>, t: Table, files: seq<FileContent>,
                                                fails: (nat, nat) -> bool)
    ensures var (t', reports) := ImportFiles(Incremental(mappings), t, files, fails);
      && RowsOf(t'.rows, |t.rows|, NewFiles(t.rows, files, fails))
      && Extends(Incremental(mappings), t, t', |NewFiles(t.rows, files, fails)|)
    decreases |files|
  {
    var mode := Incremental(mappings);
    if files == [] {
      assert t.rows[..|t.rows|] == t.rows;
    } else {
      var i := |files| - 1;
      var t1 := ImportFiles(mode, t, files[..i], fails).0;
      var prev := NewFiles(t.rows, files[..i], fails);
      IncrementalFilesRows(mappings, t, files[..i], fails);
      match files[i]
      case Unreadable =>
        assert NewFiles(t.rows, files, fails) == prev + [];
      case Records(recs) =>
        KeepNewRows(mappings, t, t1, prev, recs, FileFails(fails, i));
    }
  }

  /** The incremental import appends exactly the new records of the
      selected files (accepted, and with a key neither stored before nor
      kept earlier in the run), one row each, in order. The rows carry the
      mapped category of their exact description (None without a mapping),
      the bank 'isbank' and the month derived from their date; the count it
      reports is their number, and rows that were there before are
      untouched. */
  lemma ImportExistingRows(t: Table, mappings: map<string, nat>, entries: seq<DirEntry>,
                           fails: (nat, nat) -> bool)
    ensures var (t', outcome) := ImportExisting(t, mappings, Some(entries), fails);
      && outcome.Imported?
      && outcome.total == |NewFiles(t.rows, Selected(entries), fails)|
      && RowsOf(t'.rows, |t.rows|, NewFiles(t.rows, Selected(entries), fails))
      && t'.rows[..|t.rows|] == t.rows
      && forall j :: |t.rows| <= j < |t'.rows| ==>
           && t'.rows[j].categoryId == Lookup(mappings, t'.rows[j].description)
           && t'.rows[j].bank == ImportBank
           && ParseMonth(t'.rows[j].date) == Ok(t'.rows[j].month)
  {
    FilesExtend(Incremental(mappings), t, Selected(entries), fails);
    IncrementalFilesRows(mappings, t, Selected(entries), fails);
  }

  /** Only entries whose name ends in `_harcamalar.json` are processed, in
      directory order. */
  lemma {:induction false} SelectedBySuffix(entries: seq<DirEntry>)
    ensures forall f :: f in Selected(entries) <==>
      exists e :: e in entries && EndsWith(e.name, FileSuffix) && e.content == f
  {
    if entries != [] {
      var init := entries[..|entries| - 1];
      var last := entries[|entries| - 1];
      SelectedBySuffix(init);
      assert entries == init + [last];
      forall f ensures f in Selected(entries) <==>
        exists e :: e in entries && EndsWith(e.name, FileSuffix) && e.content == f
      {
        if f in Selected(init) {
          var e :| e in init && EndsWith(e.name, FileSuffix) && e.content == f;
          assert e in entries;
        } else if f in Selected(entries) {
          assert EndsWith(last.name, FileSuffix) && f == last.content;
          assert last in entries;
        } else {
          forall e | e in entries && EndsWith(e.name, FileSuffix) ensures e.content != f {
            if e !in init { assert e == last; }
          }
        }
      }
    }
  }

  // ------------------------------------------------------------ upload

  /** Row `e` is transaction `r` stored with id `id`, the request's bank,
      the derived month and no category. */
  predicate UploadedAs(e: Expense, r: RawTxn, bank: string, id: nat)
  {
    && e.id == id
    && e.date == r.tarih && e.description == r.aciklama && e.amount == r.tutar
    && e.bank == bank
    && ParseMonth(r.tarih) == Ok(e.month)
    && e.categoryId == None
  }

  /** The upload loop appends exactly the rows it reports, in order; row `j`
      is transaction `j`; without an exception every transaction is inserted,
      duplicates included; with one, the rows before it stay and the failing
      transaction is the first one not inserted. */
  predicate UploadFacts(t: Table, txns: seq<RawTxn>, bank: string, fails: nat -> bool, run: UploadRun)
  {
    && run.table.rows == t.rows + run.inserted
    && run.table.nextId == t.nextId + |run.inserted|
    && |run.inserted| <= |txns|
    && (run.error.None? <==> |run.inserted| == |txns|)
    && (run.error.Some? ==> !Accepted(txns[|run.inserted|], fails(|run.inserted|)))
    && RowsUploaded(run.inserted, txns, bank, t.nextId)
  }

  /** Row `j` is transaction `j`, stored with id `first + j`. */
  predicate RowsUploaded(rows: seq<Expense>, txns: seq<RawTxn>, bank: string, first: nat)
  {
    |rows| <= |txns| && forall j :: 0 <= j < |rows| ==> UploadedAs(rows[j], txns[j], bank, first + j)
  }

  lemma UploadStepFacts(run: UploadRun, r: RawTxn, bank: string, fails: bool)
    ensures var run' := UploadStep(run, r, bank, fails);
      && (run'.error.None? ==> run.error.None? && Accepted(r, fails))
      && (run.error.None? && Accepted(r, fails) ==> run'.error.None?)
      && (run'.error.None? ==>
            && run'.inserted == run.inserted + [run'.inserted[|run.inserted|]]
            && run'.table.rows == run.table.rows + [run'.inserted[|run.inserted|]]
            && run'.table.nextId == run.table.nextId + 1
            && UploadedAs(run'.inserted[|run.inserted|], r, bank, run.table.nextId))
      && (run'.error.Some? ==> run'.inserted == run.inserted && run'.table == run.table)
  {
  }

  /** An earlier exception ends the loop: the further turn changes nothing. */
  lemma UploadFactsStopped(t: Table, txns: seq<RawTxn>, bank: string, fails: nat -> bool, run: UploadRun)
    requires txns != [] && run.error.Some?
    requires UploadFacts(t, txns[..|txns| - 1], bank, fails, run)
    ensures UploadFacts(t, txns, bank, fails, UploadStep(run, txns[|txns| - 1], bank, fails(|txns| - 1)))
  {
    var last := |txns| - 1;
    UploadStepFacts(run, txns[last], bank, fails(last));
    assert txns[|run.inserted|] == txns[..last][|run.inserted|];
    RowsUploadedLonger(run.inserted, txns, bank, t.nextId);
  }

  /** The last transaction is the first one to fail. */
  lemma UploadFactsFailed(t: Table, txns: seq<RawTxn>, bank: string, fails: nat -> bool, run: UploadRun)
    requires txns != [] && run.error.None?
    requires UploadStep(run, txns[|txns| - 1], bank, fails(|txns| - 1)).error.Some?
    requires UploadFacts(t, txns[..|txns| - 1], bank, fails, run)
    ensures UploadFacts(t, txns, bank, fails, UploadStep(run, txns[|txns| - 1], bank, fails(|txns| - 1)))
  {
    var last := |txns| - 1;
    UploadStepFacts(run, txns[last], bank, fails(last));
    RowsUploadedLonger(run.inserted, txns, bank, t.nextId);
  }

  /** The last transaction is inserted as row `nextId + last`. */
  lemma UploadFactsInserted(t: Table, txns: seq<RawTxn>, bank: string, fails: nat -> bool, run: UploadRun)
    requires txns != []
    requires UploadStep(run, txns[|txns| - 1], bank, fails(|txns| - 1)).error.None?
    requires UploadFacts(t, txns[..|txns| - 1], bank, fails, run)
    ensures UploadFacts(t, txns, bank, fails, UploadStep(run, txns[|txns| - 1], bank, fails(|txns| - 1)))
  {
    var last := |txns| - 1;
    var r := txns[last];
    var init := txns[..last];
    var m := ParseMonth(r.tarih).value;
    var e := Expense(run.table.nextId, r.tarih, r.aciklama, r.tutar, bank, m, None);
    var run' := UploadRun(Insert(run.table, r.tarih, r.aciklama, r.tutar, bank, m, None), run.inserted + [e], None);
    assert UploadStep(run, r, bank, fails(last)) == run';
    assert run'.table.rows == t.rows + run'.inserted;
    assert UploadedAs(e, r, bank, t.nextId + last);
    assert txns[..|run.inserted|] == init;
    RowsUploadedAppend(run.inserted, e, txns, bank, t.nextId);
  }

  lemma RowsUploadedLonger(rows: seq<Expense>, txns: seq<RawTxn>, bank: string, first: nat)
    requires txns != [] && RowsUploaded(rows, txns[..|txns| - 1], bank, first)
    ensures RowsUploaded(rows, txns, bank, first)
  {
    assert forall j :: 0 <= j < |rows| ==> txns[..|txns| - 1][j] == txns[j];
  }

  lemma RowsUploadedAppend(rows: seq<Expense>, e: Expense, txns: seq<RawTxn>, bank: string, first: nat)
    requires |rows| + 1 == |txns|
    requires RowsUploaded(rows, txns[..|rows|], bank, first)
    requires UploadedAs(e, txns[|rows|], bank, first + |rows|)
    ensures RowsUploaded(rows + [e], txns, bank, first)
  {
    forall j | 0 <= j < |txns| ensures UploadedAs((rows + [e])[j], txns[j], bank, first + j) {
      if j < |rows| {
        assert (rows + [e])[j] == rows[j] && txns[..|rows|][j] == txns[j];
      }
    }
  }

  /** One more turn of the loop keeps the facts. */
  lemma UploadFactsStep(t: Table, txns: seq<RawTxn>, bank: string, fails: nat -> bool, run: UploadRun)
    requires txns != []
    requires UploadFacts(t, txns[..|txns| - 1], bank, fails, run)
    ensures UploadFacts(t, txns, bank, fails, UploadStep(run, txns[|txns| - 1], bank, fails(|txns| - 1)))
  {
    var last := |txns| - 1;
    if run.error.Some? {
      UploadFactsStopped(t, txns, bank, fails, run);
    } else if UploadStep(run, txns[last], bank, fails(last)).error.Some? {
      UploadFactsFailed(t, txns, bank, fails, run);
    } else {
      UploadFactsInserted(t, txns, bank, fails, run);
    }
  }

  lemma {:induction false} UploadRecordsRows(t: Table, txns: seq<RawTxn>, bank: string, fails: nat -> bool)
    ensures UploadFacts(t, txns, bank, fails, UploadRecords(t, txns, bank, fails))
    decreases |txns|
  {
    if txns != [] {
      UploadRecordsRows(t, txns[..|txns| - 1], bank, fails);
      UploadFactsStep(t, txns, bank, fails, UploadRecords(t, txns[..|txns| - 1], bank, fails));
    }
  }
}
