/**
 * The subscribe-and-append workflow `save_to_google_sheet`, over a worksheet reduced to
 * the rows of values it holds.
 *
 * `Subscribe` states, as a function of the rows before the call, what the workflow returns
 * and what the rows are afterwards; `SaveToGoogleSheet` performs the same steps against a
 * `Sheet` object and is proved to agree with it. The lemmas state the properties the
 * workflow promises: early rejections leave the sheet alone, a fresh address adds exactly
 * one row, a stored address is rejected whatever its case, and the sheet keeps a header
 * and no address twice.
 */
module Subscription {
  import opened Wrappers
  import opened Text
  import opened Email

  /** One worksheet row: its cells, left to right. */
  type Row = seq<string>

  const Header: Row := ["Email", "Subscription Date"]

  const InvalidFormat := "Invalid email format"
  const CheckFailed := "Error checking existing subscriptions. Please try again."
  const AlreadySubscribed := "This email is already subscribed!"
  const Thanks := "Thank you for subscribing!"
  const SaveFailed := "Error saving your subscription. Please try again."
  const Unexpected := "An unexpected error occurred. Please try again later."

  /** How one `append_row` call ends. The sheet's writes are not transactional: a call can
      raise although the row was stored. */
  datatype WriteFault =
    | Delivered       // the row is stored and the call returns
    | Dropped         // the call raises and nothing is stored
    | Unacknowledged  // the call raises, but the row was stored

  /** Which remote calls of one request raise: opening the worksheet, appending the header,
      reading all values, appending the subscriber's row, and the reconciliation read. */
  datatype Faults = Faults(open: bool, header: WriteFault, read: bool, append: WriteFault, recheck: bool)

  const NoFaults := Faults(false, Delivered, false, Delivered, false)

  /** The pair `save_to_google_sheet` returns, with the worksheet's rows after the call. */
  datatype Outcome = Outcome(success: bool, message: string, rows: seq<Row>)

  /** The rows after one `append_row(row)` that ends as `fault` says. */
  function Written(rows: seq<Row>, row: Row, fault: WriteFault): (r: seq<Row>)
    ensures r == rows || r == rows + [row]
    ensures r == rows <==> fault == Dropped
  {
    if fault == Dropped then rows else rows + [row]
  }

  /** `if row and row[0]`: the row has a first cell and that cell is not empty. */
  predicate HasEmailCell(row: Row) { |row| > 0 && row[0] != "" }

  /** The keys listed in `rows`, in row order: the normalised first cell of every row whose
      first cell exists and is not empty (`[row[0].lower().strip() for row in rows if row and row[0]]`). */
  function Emails(rows: seq<Row>): (emails: seq<string>)
  {
    if rows == [] then []
    else
      var last := rows[|rows| - 1];
      Emails(rows[..|rows| - 1]) + (if HasEmailCell(last) then [Normalize(last[0])] else [])
  }

  /** `existing_emails`: the comprehension over `all_values[1:]`; the first row is taken to be the header. */
  function ExistingEmails(values: seq<Row>): seq<string>
  {
    if values == [] then [] else Emails(values[1..])
  }

  /** The reconciliation test: the sheet has a last row, it has a first cell, and that cell
      normalises to `key`. Only the last row is looked at. */
  predicate LastRowMatches(values: seq<Row>, key: string) {
    && |values| > 0
    && |values[|values| - 1]| > 0
    && Normalize(values[|values| - 1][0]) == key
  }

  /** The workflow, with the header condition given as `addHeader`.
      Steps: validate; normalise; add a header if asked; read all values; reject a stored
      address; append `[key, timestamp]`; after a failed append, accept if the last row now
      holds the key. */
  function SubscribeWith(addHeader: bool, rows: seq<Row>, faults: Faults, email: string, timestamp: string): Outcome
  {
    if !IsValidEmail(email) then Outcome(false, InvalidFormat, rows)
    else if faults.open then Outcome(false, Unexpected, rows)
    else
      var key := Normalize(email);
      var prepared := if addHeader then Written(rows, Header, faults.header) else rows;
      if addHeader && faults.header != Delivered then Outcome(false, Unexpected, prepared)
      else if faults.read then Outcome(false, CheckFailed, prepared)
      else if key in ExistingEmails(prepared) then Outcome(false, AlreadySubscribed, prepared)
      else
        var after := Written(prepared, [key, timestamp], faults.append);
        if faults.append == Delivered then Outcome(true, Thanks, after)
        else if !faults.recheck && LastRowMatches(after, key) then Outcome(true, Thanks, after)
        else Outcome(false, SaveFailed, after)
  }

  /** `save_to_google_sheet` as the code is written: the header is added when `sheet.row_count`,
      the worksheet's grid size `gridRows`, is zero. */
  function SubscribeAsWritten(gridRows: nat, rows: seq<Row>, faults: Faults, email: string, timestamp: string): Outcome
  {
    SubscribeWith(gridRows == 0, rows, faults, email, timestamp)
  }

  /** `save_to_google_sheet` as intended: the header is added when the worksheet holds no values. */
  function Subscribe(rows: seq<Row>, faults: Faults, email: string, timestamp: string): Outcome
  {
    SubscribeWith(rows == [], rows, faults, email, timestamp)
  }

  /** The rows once a header is ensured. */
  function WithHeader(rows: seq<Row>): seq<Row>
  {
    if rows == [] then [Header] else rows
  }

  predicate NoDuplicates(s: seq<string>) {
    forall i, j :: 0 <= i < j < |s| ==> s[i] != s[j]
  }

  /** The state the workflow keeps: a header first when there is any row, and no address
      stored twice among the rows after it. */
  predicate Valid(rows: seq<Row>) {
    (rows == [] || rows[0] == Header) && NoDuplicates(ExistingEmails(rows))
  }

  // ---- the existing-email list ----

  /** Row `k` has a non-empty first cell whose key is `e`. */
  predicate ListedAt(rows: seq<Row>, k: int, e: string) {
    0 <= k < |rows| && HasEmailCell(rows[k]) && Normalize(rows[k][0]) == e
  }

  /** One step of the comprehension: the list for `rows` is the list for all but the last row,
      followed by the last row's key if it has one. */
  lemma EmailsStep(rows: seq<Row>, e: string)
    requires rows != []
    ensures e in Emails(rows) <==> e in Emails(rows[..|rows| - 1]) || ListedAt(rows, |rows| - 1, e)
  {
  }

  /** An address is in the comprehension's list exactly when some row's non-empty first cell normalises to it. */
  lemma {:induction false} InEmails(rows: seq<Row>, e: string)
    ensures e in Emails(rows) <==> exists k :: ListedAt(rows, k, e)
  {
    if rows != [] {
      var init := rows[..|rows| - 1];
      InEmails(init, e);
      EmailsStep(rows, e);
      if e in Emails(init) {
        var k :| ListedAt(init, k, e);
        assert init[k] == rows[k];
        assert ListedAt(rows, k, e);
      }
      if exists k :: ListedAt(rows, k, e) {
        var k :| ListedAt(rows, k, e);
        if k < |init| {
          assert init[k] == rows[k];
          assert ListedAt(init, k, e);
        }
      }
    }
  }

  /** `existing_emails` holds exactly the normalised non-empty first cells of the rows after the first. */
  lemma InExistingEmails(values: seq<Row>, e: string)
    ensures e in ExistingEmails(values) <==> exists k :: 1 <= k && ListedAt(values, k, e)
  {
    if values != [] {
      var rest := values[1..];
      InEmails(rest, e);
      if e in ExistingEmails(values) {
        var k :| ListedAt(rest, k, e);
        assert rest[k] == values[k + 1];
        assert ListedAt(values, k + 1, e);
      }
      if exists k :: 1 <= k && ListedAt(values, k, e) {
        var k :| 1 <= k && ListedAt(values, k, e);
        assert rest[k - 1] == values[k];
        assert ListedAt(rest, k - 1, e);
      }
    }
  }

  /** Appending a row after the header extends `existing_emails` by that row's key, if it has one. */
  lemma ExistingEmailsAppend(values: seq<Row>, row: Row)
    requires values != []
    ensures ExistingEmails(values + [row]) ==
      ExistingEmails(values) + (if HasEmailCell(row) then [Normalize(row[0])] else [])
  {
    var all := values + [row];
    assert all[1..] == values[1..] + [row];
    assert all[1..][..|all[1..]| - 1] == values[1..];
  }

  // ---- properties of the workflow ----

  /** The early exits, with their fixed messages: an invalid address returns before the sheet is
      opened; a failure opening the sheet changes nothing; a failure adding the header or reading
      the values returns at once, the only possible change being the header. */
  lemma EarlyReturns(rows: seq<Row>, faults: Faults, email: string, timestamp: string)
    ensures var o := Subscribe(rows, faults, email, timestamp);
      && (!IsValidEmail(email) ==> o == Outcome(false, InvalidFormat, rows))
      && (IsValidEmail(email) && faults.open ==> o == Outcome(false, Unexpected, rows))
      && (IsValidEmail(email) && !faults.open && rows == [] && faults.header != Delivered ==>
            o == Outcome(false, Unexpected, Written([], Header, faults.header)))
      && (IsValidEmail(email) && !faults.open && (rows != [] || faults.header == Delivered) && faults.read ==>
            o == Outcome(false, CheckFailed, WithHeader(rows)))
  {
  }

  /** A stored address is rejected whatever its case or surrounding whitespace: if a row after the
      first has a first cell that normalises to the key, the call answers "already subscribed"
      and appends nothing. */
  lemma DuplicateRejected(rows: seq<Row>, faults: Faults, email: string, timestamp: string, k: int)
    requires IsValidEmail(email) && !faults.open && !faults.read
    requires 1 <= k < |rows| && HasEmailCell(rows[k]) && Normalize(rows[k][0]) == Normalize(email)
    ensures Subscribe(rows, faults, email, timestamp) == Outcome(false, AlreadySubscribed, rows)
  {
    assert ListedAt(rows, k, Normalize(email));
    InExistingEmails(rows, Normalize(email));
  }

  /** The duplicate check ignores letter case: when a row after the first holds the same address
      in other letter case, the call answers "already subscribed" and appends nothing. */
  lemma CaseVariantRejected(rows: seq<Row>, faults: Faults, email: string, timestamp: string, k: int)
    requires IsValidEmail(email) && !faults.open && !faults.read
    requires 1 <= k < |rows| && HasEmailCell(rows[k]) && SameUpToCase(rows[k][0], email)
    ensures Subscribe(rows, faults, email, timestamp) == Outcome(false, AlreadySubscribed, rows)
  {
    NormalizeIgnoresCase(rows[k][0], email);
    DuplicateRejected(rows, faults, email, timestamp, k);
  }

  /** A valid address not yet stored, on a sheet whose calls all succeed, appends exactly the row
      `[key, timestamp]` at the end (after a header, if the sheet held no values) and returns success. */
  lemma FreshAddressAppended(rows: seq<Row>, email: string, timestamp: string)
    requires IsValidEmail(email) && Normalize(email) !in ExistingEmails(rows)
    ensures Subscribe(rows, NoFaults, email, timestamp) ==
      Outcome(true, Thanks, WithHeader(rows) + [[Normalize(email), timestamp]])
  {
    assert ExistingEmails(WithHeader(rows)) == ExistingEmails(rows);
  }

  /** Whatever the faults, a call changes the rows in one of three ways only: not at all, by a
      header on a sheet that held no values, or by one row `[key, timestamp]` after that, and
      the last only for a valid address whose key was not listed. Success comes with the thanks
      message and only with it. */
  lemma ChangesAtMostHeaderAndRow(rows: seq<Row>, faults: Faults, email: string, timestamp: string)
    ensures var o := Subscribe(rows, faults, email, timestamp);
      || o.rows == rows
      || (rows == [] && o.rows == [Header])
      || (&& IsValidEmail(email) && Normalize(email) !in ExistingEmails(WithHeader(rows))
          && o.rows == WithHeader(rows) + [[Normalize(email), timestamp]])
    ensures var o := Subscribe(rows, faults, email, timestamp);
      o.success <==> o.message == Thanks
  {
  }

  /** After a failed append, the call recovers only through the reconciliation read. A row that
      was stored although the call raised is recognised whenever that read works; after a dropped
      append, the call succeeds exactly when the read works and the last row already held the key.
      Otherwise the call reports the save error. */
  lemma ReconcileAfterFailedAppend(rows: seq<Row>, faults: Faults, email: string, timestamp: string)
    requires IsValidEmail(email) && !faults.open && (rows != [] || faults.header == Delivered) && !faults.read
    requires Normalize(email) !in ExistingEmails(WithHeader(rows)) && faults.append != Delivered
    ensures var o, prepared := Subscribe(rows, faults, email, timestamp), WithHeader(rows);
      && o.rows == Written(prepared, [Normalize(email), timestamp], faults.append)
      && (faults.append == Unacknowledged ==> (o.success <==> !faults.recheck))
      && (faults.append == Dropped ==> (o.success <==> !faults.recheck && LastRowMatches(prepared, Normalize(email))))
      && o.message == (if o.success then Thanks else SaveFailed)
  {
    var key := Normalize(email);
    NormalizeIdempotent(email);
    assert LastRowMatches(WithHeader(rows) + [[key, timestamp]], key);
  }

  /** The key of a valid address never equals the header cell's key, which has no `@`. */
  lemma KeyIsNotHeader(email: string)
    requires IsValidEmail(email)
    ensures Normalize(email) != Normalize(Header[0])
  {
    NormalizeValid(email);
    if '@' in Normalize(Header[0]) {
      NormalizeKeepsAt(Header[0]);
    }
  }

  /** After the header check, the sheet is valid and lists the same stored addresses. */
  lemma WithHeaderValid(rows: seq<Row>)
    requires Valid(rows)
    ensures Valid(WithHeader(rows)) && ExistingEmails(WithHeader(rows)) == ExistingEmails(rows)
  {
  }

  /** Appending the row of an address not yet listed keeps the sheet valid and lists the address. */
  lemma AppendFreshValid(rows: seq<Row>, email: string, timestamp: string)
    requires Valid(rows) && rows != [] && IsValidEmail(email)
    requires Normalize(email) !in ExistingEmails(rows)
    ensures Valid(rows + [[Normalize(email), timestamp]])
    ensures Normalize(email) in ExistingEmails(rows + [[Normalize(email), timestamp]])
  {
    var key := Normalize(email);
    NormalizeValid(email);
    NormalizeIdempotent(email);
    var row := [key, timestamp];
    assert HasEmailCell(row);
    ExistingEmailsAppend(rows, row);
    assert ExistingEmails(rows + [row]) == ExistingEmails(rows) + [key];
  }

  /** Every call keeps the sheet valid: a header first, and no address stored twice. */
  lemma SubscribePreservesValid(rows: seq<Row>, faults: Faults, email: string, timestamp: string)
    requires Valid(rows)
    ensures Valid(Subscribe(rows, faults, email, timestamp).rows)
  {
    var after := Subscribe(rows, faults, email, timestamp).rows;
    ChangesAtMostHeaderAndRow(rows, faults, email, timestamp);
    WithHeaderValid(rows);
    if after != rows && after != WithHeader(rows) {
      AppendFreshValid(WithHeader(rows), email, timestamp);
    }
  }

  /** A call succeeds only on the paths that reach the append: the address is valid, the sheet
      opened and read, the key was not listed, and either the row was appended or, after a
      dropped append, the reconciliation read found the key in the last row. */
  lemma SuccessPath(rows: seq<Row>, faults: Faults, email: string, timestamp: string)
    requires Subscribe(rows, faults, email, timestamp).success
    ensures IsValidEmail(email) && !faults.open && (rows != [] || faults.header == Delivered) && !faults.read
    ensures Normalize(email) !in ExistingEmails(WithHeader(rows))
    ensures var after := Subscribe(rows, faults, email, timestamp).rows;
      || after == WithHeader(rows) + [[Normalize(email), timestamp]]
      || (after == WithHeader(rows) && LastRowMatches(after, Normalize(email)))
  {
  }

  /** When the last row of a sheet with a header holds the key of a valid address, that row is
      not the header, so the key is listed. */
  lemma LastRowListed(values: seq<Row>, email: string)
    requires values != [] && values[0] == Header && IsValidEmail(email)
    requires LastRowMatches(values, Normalize(email))
    ensures Normalize(email) in ExistingEmails(values)
  {
    var key := Normalize(email);
    KeyIsNotHeader(email);
    NormalizeValid(email);
    var cell := values[|values| - 1][0];
    assert cell != Header[0];
    assert cell != "" by {
      assert Normalize("") == "";
    }
    assert ListedAt(values, |values| - 1, key);
    InExistingEmails(values, key);
  }

  /** On a valid sheet, success means the address is stored: its key is listed among the rows
      after the header. This includes the reconciliation path, where the last row holding the key
      cannot be the header. */
  lemma SuccessMeansStored(rows: seq<Row>, faults: Faults, email: string, timestamp: string)
    requires Valid(rows)
    requires Subscribe(rows, faults, email, timestamp).success
    ensures Normalize(email) in ExistingEmails(Subscribe(rows, faults, email, timestamp).rows)
  {
    var prepared := WithHeader(rows);
    var after := Subscribe(rows, faults, email, timestamp).rows;
    SuccessPath(rows, faults, email, timestamp);
    WithHeaderValid(rows);
    if after == prepared + [[Normalize(email), timestamp]] {
      AppendFreshValid(prepared, email, timestamp);
    } else {
      LastRowListed(prepared, email);
    }
  }

  /** A second subscription of an address that succeeded once is rejected, on a valid sheet,
      whatever faults the first call met, as long as the second can read the sheet. */
  lemma NoDoubleSubscription(rows: seq<Row>, first: Faults, second: Faults, email: string, t1: string, t2: string)
    requires Valid(rows) && Subscribe(rows, first, email, t1).success
    requires !second.open && !second.read
    ensures var after := Subscribe(rows, first, email, t1).rows;
      Subscribe(after, second, email, t2) == Outcome(false, AlreadySubscribed, after)
  {
    var after := Subscribe(rows, first, email, t1).rows;
    SuccessMeansStored(rows, first, email, t1);
    SubscribePreservesValid(rows, first, email, t1);
    assert after != [];
  }

  /** As written, on a worksheet with grid rows and no faults, an address not listed is appended
      as is, without a header. */
  lemma AsWrittenAppends(gridRows: nat, rows: seq<Row>, email: string, timestamp: string)
    requires gridRows > 0 && IsValidEmail(email) && Normalize(email) !in ExistingEmails(rows)
    ensures SubscribeAsWritten(gridRows, rows, NoFaults, email, timestamp) ==
      Outcome(true, Thanks, rows + [[Normalize(email), timestamp]])
  {
  }

  /** As written, the header condition reads the worksheet's grid size. A worksheet always has grid
      rows, so no header is ever added: on an empty sheet the first subscriber's row becomes row
      0, which the duplicate check skips, and the same address is accepted and stored again. */
  lemma AsWrittenSubscribesTwice(gridRows: nat, email: string, t1: string, t2: string)
    requires gridRows > 0 && IsValidEmail(email)
    ensures var key, first := Normalize(email), SubscribeAsWritten(gridRows, [], NoFaults, email, t1);
      && first == Outcome(true, Thanks, [[key, t1]])
      && SubscribeAsWritten(gridRows, first.rows, NoFaults, email, t2)
           == Outcome(true, Thanks, [[key, t1], [key, t2]])
  {
    var rows1 := [[Normalize(email), t1]];
    AsWrittenAppends(gridRows, [], email, t1);
    assert ExistingEmails(rows1) == [] by {
      assert rows1[1..] == [];
    }
    AsWrittenAppends(gridRows, rows1, email, t2);
  }

  /** "a@b.com" is a valid address and is its own key. */
  lemma LowerCaseKey()
    ensures IsValidEmail("a@b.com") && Normalize("a@b.com") == "a@b.com"
  {
    var s := "a@b.com";
    assert SplitsAt(s, 1, 3);
    assert Lower(s) == s;
    StripUnchangedWhenTrimmed(s);
  }

  /** "A@B.com" is a valid address whose key is "a@b.com". */
  lemma UpperCaseKey()
    ensures IsValidEmail("A@B.com") && Normalize("A@B.com") == "a@b.com"
  {
    var s := "A@B.com";
    assert SplitsAt(s, 1, 3);
    assert Lower(s) == "a@b.com";
    StripUnchangedWhenTrimmed("a@b.com");
  }

  /** The signup scenario: on an empty sheet whose calls succeed, a first address is accepted and
      becomes the only listed address, after the header; a second address with the same key (the
      same address in another case, say) is then rejected as already subscribed. */
  lemma SignupScenario(first: string, second: string, t1: string, t2: string)
    requires IsValidEmail(first) && IsValidEmail(second) && Normalize(first) == Normalize(second)
    ensures var key, o := Normalize(first), Subscribe([], NoFaults, first, t1);
      && o == Outcome(true, Thanks, [Header, [key, t1]])
      && ExistingEmails(o.rows) == [key]
      && Subscribe(o.rows, NoFaults, second, t2) == Outcome(false, AlreadySubscribed, o.rows)
  {
    var key := Normalize(first);
    NormalizeValid(first);
    NormalizeIdempotent(first);
    FreshAddressAppended([], first, t1);
    var rows := [Header, [key, t1]];
    assert WithHeader([]) + [[key, t1]] == rows;
    ExistingEmailsAppend([Header], [key, t1]);
    assert ExistingEmails([Header]) == [];
    DuplicateRejected(rows, NoFaults, second, t2, 1);
  }

  /** A concrete instance: "a@b.com" is accepted on an empty sheet, and "A@B.com" is then
      rejected. */
  lemma SignupExample(t1: string, t2: string)
    ensures var o := Subscribe([], NoFaults, "a@b.com", t1);
      && o == Outcome(true, Thanks, [Header, ["a@b.com", t1]])
      && Subscribe(o.rows, NoFaults, "A@B.com", t2) == Outcome(false, AlreadySubscribed, o.rows)
  {
    LowerCaseKey();
    UpperCaseKey();
    SignupScenario("a@b.com", "A@B.com", t1, t2);
  }

  /** The worksheet `sheet1`, reduced to the rows of values it holds, together with the faults its
      remote calls raise during one request. */
  class Sheet {
    var rows: seq<Row>
    const faults: Faults

    constructor (rows: seq<Row>, faults: Faults)
      ensures this.rows == rows && this.faults == faults
    {
      this.rows := rows;
      this.faults := faults;
    }

    /** The number of rows holding values: the header condition as intended. */
    method RowCount() returns (n: nat)
      ensures n == |rows|
    {
      n := |rows|;
    }

    /** `append_row(row)`, ending as `fault` says. */
    method AppendRow(row: Row, fault: WriteFault) returns (ok: bool)
      modifies this`rows
      ensures ok <==> fault == Delivered
      ensures rows == Written(old(rows), row, fault)
    {
      rows := Written(rows, row, fault);
      ok := fault == Delivered;
    }

    /** `get_all_values()`: every row, or `None` when the call raises. */
    method GetAllValues(fails: bool) returns (values: Option<seq<Row>>)
      ensures values == if fails then None else Some(rows)
    {
      values := if fails then None else Some(rows);
    }
  }

  /** `save_to_google_sheet(email)` against `sheet`, with the clock reading `timestamp`.
      It returns what `Subscribe` describes, leaves the rows as `Subscribe` describes, and keeps
      the sheet valid. */
  method SaveToGoogleSheet(sheet: Sheet, email: string, timestamp: string) returns (success: bool, message: string)
    modifies sheet`rows
    ensures var o := Subscribe(old(sheet.rows), sheet.faults, email, timestamp);
      success == o.success && message == o.message && sheet.rows == o.rows
    ensures Valid(old(sheet.rows)) ==> Valid(sheet.rows)
  {
    ghost var before := sheet.rows;
    if Valid(before) {
      SubscribePreservesValid(before, sheet.faults, email, timestamp);
    }
    if !IsValidEmail(email) {
      return false, InvalidFormat;
    }
    var key := Normalize(email);
    if sheet.faults.open {
      return false, Unexpected;
    }
    var count := sheet.RowCount();
    if count == 0 {
      var ok := sheet.AppendRow(Header, sheet.faults.header);
      if !ok {
        return false, Unexpected;
      }
    }
    var allValues := sheet.GetAllValues(sheet.faults.read);
    if allValues.None? {
      return false, CheckFailed;
    }
    var existing := ExistingEmails(allValues.value);
    if key in existing {
      return false, AlreadySubscribed;
    }
    var appended := sheet.AppendRow([key, timestamp], sheet.faults.append);
    if appended {
      return true, Thanks;
    }
    var again := sheet.GetAllValues(sheet.faults.recheck);
    if again.Some? && LastRowMatches(again.value, key) {
      return true, Thanks;
    }
    return false, SaveFailed;
  }
}
