/** The stored entities of the expense ledger (Expense, Category), the raw
    transaction a statement parser emits, and `parseMonth`, which derives an
    expense's month bucket from its `DD/MM/YYYY` date. */
module Ledger {
  import opened Common

  /** A spending bucket; unique by name in the store. */
  datatype Category = Category(id: nat, name: string, color: Option<string>)

  /** One stored ledger row. `categoryId == None` is "uncategorised". */
  datatype Expense = Expense(
    id: nat,
    date: string,
    description: string,
    amount: real,
    bank: string,
    month: string,
    categoryId: Option<nat>)

  /** A transaction as the statement parser emits it (`tarih`, `aciklama`,
      `tutar`). */
  datatype RawTxn = RawTxn(tarih: string, aciklama: string, tutar: real)

  /** The tuple the incremental import uses to recognise a transaction that
      is already stored. */
  datatype Key = Key(date: string, description: string, amount: real, bank: string)

  function KeyOf(e: Expense): Key
  {
    Key(e.date, e.description, e.amount, e.bank)
  }

  function RawKey(r: RawTxn, bank: string): Key
  {
    Key(r.tarih, r.aciklama, r.tutar, bank)
  }

  /** `parseMonth(dateStr)`: split on '/', take the second field as the month
      and the third as the year, and return `year-MM` with the month padded
      to two characters. A date without any '/' makes the month field
      undefined, and reading `padStart` of it throws; a date with a single
      '/' has no year field and JavaScript renders it as "undefined". */
  function ParseMonth(date: string): (r: Result<string>)
    ensures r.Err? <==> '/' !in date
  {
    var parts := Split(date, '/');
    if |parts| < 2 then
      Err("Cannot read properties of undefined (reading 'padStart')")
    else
      var year := if |parts| >= 3 then parts[2] else "undefined";
      Ok(year + "-" + PadStartZero(parts[1], 2))
  }

  /** The month bucket is the third '/'-field, a dash, and the second field
      padded to two characters; the first field (the day) and any fields
      after the third play no part. */
  lemma ParseMonthFields(fields: seq<string>)
    requires |fields| >= 3
    requires forall k :: 0 <= k < |fields| ==> '/' !in fields[k]
    ensures ParseMonth(Join(fields, '/')) == Ok(fields[2] + "-" + PadStartZero(fields[1], 2))
  {
    SplitJoin(fields, '/');
  }

  /** A date with a single '/' has no year field, which JavaScript renders
      as "undefined". */
  lemma ParseMonthNoYear(day: string, month: string)
    requires '/' !in day && '/' !in month
    ensures ParseMonth(Join([day, month], '/')) == Ok("undefined-" + PadStartZero(month, 2))
  {
    var fields := [day, month];
    assert forall k :: 0 <= k < |fields| ==> '/' !in fields[k];
    SplitJoin(fields, '/');
    assert "undefined" + "-" + PadStartZero(month, 2) == "undefined-" + PadStartZero(month, 2);
  }

  /** The padding never shortens the month field and leaves a field of two
      or more characters as it is; a one-character field gains one '0'. */
  lemma ParseMonthPadding(day: string, month: string, year: string)
    requires '/' !in day && '/' !in month && '/' !in year
    ensures var r := ParseMonth(Join([day, month, year], '/'));
      && r.Ok?
      && |r.value| == |year| + 1 + (if |month| < 2 then 2 else |month|)
      && (|month| >= 2 ==> r.value == year + "-" + month)
      && (|month| == 1 ==> r.value == year + "-0" + month)
  {
    var fields := [day, month, year];
    assert forall k :: 0 <= k < |fields| ==> '/' !in fields[k];
    ParseMonthFields(fields);
    var padded := PadStartZero(month, 2);
    assert ParseMonth(Join(fields, '/')) == Ok(year + "-" + padded);
    if |month| == 1 {
      assert PadStartZero(month, 2) == "0" + month;
      assert year + "-" + ("0" + month) == year + "-0" + month;
    }
  }

  lemma JoinThree(a: string, b: string, c: string)
    ensures Join([a, b, c], '/') == a + "/" + b + "/" + c
  {
    assert [a, b, c][1..] == [b, c];
    assert [b, c][1..] == [c];
    assert Join([c], '/') == c;
    assert Join([b, c], '/') == b + ['/'] + c;
    assert Join([a, b, c], '/') == a + ['/'] + (b + ['/'] + c);
  }

  /** A one-digit month and its zero-padded form fall into the same bucket
      whatever the day field holds, as in "05/03/2024" and "5/3/2024", which
      both give "2024-03". */
  lemma PaddedAndUnpaddedAgree(day1: string, day2: string, digit: char, year: string)
    requires '/' !in day1 && '/' !in day2 && '/' !in year && digit != '/'
    ensures ParseMonth(day1 + "/" + ("0" + [digit]) + "/" + year) == Ok(year + "-0" + [digit])
    ensures ParseMonth(day2 + "/" + [digit] + "/" + year) == Ok(year + "-0" + [digit])
  {
    var padded: string := ['0', digit];
    var single: string := [digit];
    assert "0" + [digit] == padded;
    assert '/' !in padded && |padded| == 2;
    MonthOfDate(day1, padded, year);
    assert year + "-" + padded == year + "-0" + single;
    MonthOfDate(day2, single, year);
  }

  lemma MonthOfDate(day: string, month: string, year: string)
    requires '/' !in day && '/' !in month && '/' !in year
    ensures |month| >= 2 ==> ParseMonth(day + "/" + month + "/" + year) == Ok(year + "-" + month)
    ensures |month| == 1 ==> ParseMonth(day + "/" + month + "/" + year) == Ok(year + "-0" + month)
  {
    JoinThree(day, month, year);
    ParseMonthPadding(day, month, year);
  }
}
