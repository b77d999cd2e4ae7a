# Mailing-list signup, modelled in Dafny

This project models the signup view of a small Django site, `store/views.py`. A visitor
submits an email address from the page. The view validates the address with a regular
expression and normalises it (lower case, whitespace stripped). It then records it in a
Google worksheet, after checking that the address is not already listed. The view answers
the page's script with JSON.

The model has five modules:

- `Wrappers` (wrappers.dfy): the `Option` type.
- `Text` (text.dfy): `str.lower()` on ASCII, and `str.strip()` with Python's whitespace set
  (the 29 code points for which `str.isspace()` holds). `Normalize` is `email.lower().strip()`.
- `Email` (email.dfy): `is_valid_email` as what the pattern
  `^[a-zA-Z0-9._%+-]+@[a-zA-Z0-9.-]+\.[a-zA-Z]{2,}$` accepts under `re.match`. That is a split
  of the string into the pattern's parts, allowing one final newline, which `$` admits. An
  independent description finds the single `@` and the domain's last `.`, and a lemma proves
  the two agree.
- `Subscription` (subscription.dfy): `save_to_google_sheet`.
  - The worksheet is a `Sheet` object with a `rows` field (the values it holds) and the faults
    its remote calls raise in one request: opening the sheet, appending the header, reading all
    values, appending the subscriber's row, and the reconciliation read.
  - An append can fail in two ways: it stores nothing, or it stores the row and still raises.
    The second case is why the code re-reads the sheet after a failed append.
  - `Subscribe` is a pure description of the outcome and the new rows. The method
    `SaveToGoogleSheet` performs the steps against the object and is proved to agree with it.
- `Views` (views.dfy): `index`. A request is reduced to its method, its `X-Requested-With`
  value and its `email` field. The response is either the page or a JSON answer
  (code, status, message).

The timestamp that `datetime.now().strftime(...)` produces is a parameter.

Points where the code differs from a naive reading:

- A failed save, backend failures included, is answered with 400 and the save's own message.
  `save_to_google_sheet` catches every exception, so the 500 branch of `index`
  (store/views.py:150-155) cannot be reached, and the model has none.
- After a failed append, the code checks only the last row. It does not check whether the
  address appears anywhere in the sheet.
- The blank-address check happens in `index`, not inside the save.
- The header condition uses `sheet.row_count` (see Findings).

## Model

| member | source | states |
|---|---|---|
| `Text.LowerChar` | store/views.py:82 | one character of `lower()`: an upper-case ASCII letter becomes its lower-case letter (code point plus 32), any other character is unchanged |
| `Text.Lower` | store/views.py:82 | definition of `lower()` on ASCII, character by character; the result has the input's length; characterised by `LowerAt` and `LowerFacts` |
| `Text.TrimStart` | store/views.py:82 | definition of the left half of `strip()`; never longer than its input; characterised by `TrimStartSpec` |
| `Text.TrimEnd` | store/views.py:82 | definition of the right half of `strip()`; never longer than its input; characterised by `TrimEndSpec` |
| `Text.Strip` | store/views.py:130 | definition of `strip()`; characterised by `StripSlice`, `StripEdges` and `StripEmptyIffBlank` |
| `Text.Normalize` | store/views.py:82 | definition of the key `email.lower().strip()`; characterised by `NormalizeHasNoUpper`, `NormalizeIdempotent` and `NormalizeIgnoresCase` |
| `Text.LowerAt` | store/views.py:82 | `lower()` works character by character: each position of the result is that position's character lowered |
| `Text.LowerFacts` | store/views.py:82 | the lowered string has no upper-case letter, and lowering a prefix gives the prefix of the lowered string |
| `Text.LowerUnchangedWithoutUpper` | store/views.py:82 | lowering a string that has no upper-case letter returns it unchanged |
| `Text.TrimStartSpec` | store/views.py:82 | the left half of `strip()` removes exactly the longest all-whitespace prefix |
| `Text.TrimEndSpec` | store/views.py:82 | the right half of `strip()` removes exactly the longest all-whitespace suffix |
| `Text.StripSlice` | store/views.py:130 | `strip()` returns a slice of its input, and what it cuts on either side is whitespace |
| `Text.StripEdges` | store/views.py:130 | the result of `strip()` neither starts nor ends with whitespace |
| `Text.StripEmptyIffBlank` | store/views.py:130-132 | a field strips to the empty string exactly when it is empty or whitespace only |
| `Text.StripIdempotent` | store/views.py:82 | stripping twice is the same as stripping once |
| `Text.StripKeepsCharacters` | store/views.py:82 | every character of a stripped string comes from the input |
| `Text.NormalizeHasNoUpper` | store/views.py:82 | the key `email.lower().strip()` has no upper-case letter, whatever the input |
| `Text.NormalizeIdempotent` | store/views.py:82 | normalising a key again leaves it unchanged |
| `Text.NormalizeIgnoresCase` | store/views.py:82 | two strings that differ only in the case of ASCII letters have the same key |
| `Text.NormalizeKeepsAt` | store/views.py:82 | an `@` in the key comes from the input |
| `Email.IsValidEmail` | store/views.py:50-53 | definition: `re.match` of the pattern, as a split of the string (or of the string less one final newline) into the pattern's parts; characterised by `ValidIffWellFormed` |
| `Email.IndexOf` | store/views.py:52 | reference helper: the first position of a character, which occurs there and not before |
| `Email.LastIndexOf` | store/views.py:52 | reference helper: the last position of a character, which occurs there and not after |
| `Email.WellFormedAddress` | store/views.py:52 | reference definition of the accepted addresses, independent of the regular expression: one `@`, a non-empty local part, a domain whose last `.` has a character before it and two or more letters after it |
| `Email.Body` | store/views.py:52-53 | `$` matches at the end or before one final newline: the body is the string with at most that newline removed |
| `Email.SplitHasOneAt` | store/views.py:52 | a string the pattern splits has exactly one `@`: neither character class contains `@` |
| `Email.SplitAtIsOnlyAt` | store/views.py:52 | in a match, the `@` between the local part and the domain is the first and the last `@` of the string |
| `Email.SplitDomainWellFormed` | store/views.py:52 | the domain part of a match is well formed: domain characters only, and its last `.` is the split's `.`, the one before the final letters |
| `Email.FullMatchIsWellFormed` | store/views.py:52-53 | a match of the pattern is a well-formed address: one `@`, a non-empty local part, domain characters only, and a last `.` with a character before it and two or more letters after it |
| `Email.WellFormedIsFullMatch` | store/views.py:52-53 | every well-formed address matches the pattern |
| `Email.SplitEndsWithLetter` | store/views.py:52 | a string the pattern matches ends with a letter |
| `Email.ValidMatchesBody` | store/views.py:52-53 | `re.match` accepts the string exactly when the pattern matches all of it, less one optional final newline |
| `Email.ValidIffWellFormed` | store/views.py:50-53 | `is_valid_email(s)` holds if and only if `s`, less one optional final newline, is a well-formed address |
| `Email.RejectsWithoutAt` | store/views.py:50-53 | an address with no `@` is rejected |
| `Email.RejectsWithoutFinalLetter` | store/views.py:50-53 | an address that does not end with a letter (before an optional newline) is rejected |
| `Email.LowerKeepsSplit` | store/views.py:52 | lowering keeps each part of a match inside its character class |
| `Email.SplitHasNoWhitespace` | store/views.py:52 | no character of a match is whitespace |
| `Email.StripDropsFinalNewline` | store/views.py:82 | stripping a non-blank, whitespace-free string with an optional final newline removes just that newline |
| `Email.LowerOfBody` | store/views.py:82 | lowering keeps the final newline where it was |
| `Email.LowerKeepsMatch` | store/views.py:52 | the lowered form of a match is still a match, still holds its `@`, and ends with a letter |
| `Email.NormalizeValid` | store/views.py:78-82 | for a valid address, the key is the address lowered with the optional newline dropped; it has no upper-case letter, contains `@`, and is itself valid |
| `Subscription.Written` | store/views.py:90 | one `append_row` either adds the row at the end or, when it raises before storing, leaves the rows as they were |
| `Subscription.Emails` | store/views.py:97 | definition: the comprehension, the normalised non-empty first cells in row order; characterised by `EmailsStep` and `InEmails` |
| `Subscription.ExistingEmails` | store/views.py:95-97 | definition: the comprehension over every row but the first; characterised by `InExistingEmails` |
| `Subscription.LastRowMatches` | store/views.py:116-117 | definition: the last row exists, has a first cell, and that cell normalises to the key; used by `ReconcileAfterFailedAppend` and `LastRowListed` |
| `Subscription.SubscribeWith` | store/views.py:76-126 | definition: the workflow's steps in the code's order (validate, normalise, open, optional header, read, duplicate check, append, reconciliation), with the header condition as a parameter; its properties are the lemmas below |
| `Subscription.Subscribe` | store/views.py:76-126 | definition: the workflow with the header added when the sheet holds no values (the corrected condition, see Findings) |
| `Subscription.SubscribeAsWritten` | store/views.py:76-126 | definition: the workflow with the header added when the grid size is zero, as the code is written |
| `Subscription.Valid` | store/views.py:88-104 | definition: the state the workflow keeps, a header first and no listed key twice; preserved by `SubscribePreservesValid` || `Subscription.EmailsStep` | store/views.py:97 | the comprehension's list for some rows is the list for all but the last row, followed by the last row's key if its first cell is non-empty |
| `Subscription.InEmails` | store/views.py:97 | an address is in the comprehension's list exactly when some row has a non-empty first cell that normalises to it |
| `Subscription.InExistingEmails` | store/views.py:95-97 | `existing_emails` holds exactly the normalised non-empty first cells of the rows after the first |
| `Subscription.ExistingEmailsAppend` | store/views.py:97 | appending a row after the first extends `existing_emails` by that row's key, if it has one |
| `Subscription.EarlyReturns` | store/views.py:78-100 | an invalid address gives "Invalid email format" and the sheet untouched; a failure opening the sheet or adding the header gives the "unexpected error" message; a failed read gives the "checking" message; in each case nothing but the header can have been added |
| `Subscription.DuplicateRejected` | store/views.py:102-104 | if a row after the first has a first cell whose key equals the address's key, in any case, the call answers "This email is already subscribed!" and appends nothing |
| `Subscription.CaseVariantRejected` | store/views.py:102-104 | the duplicate check ignores case: an address whose stored form differs from it only in letter case is rejected as already subscribed, with nothing appended |
| `Subscription.FreshAddressAppended` | store/views.py:89-110 | a valid address not yet listed, on a sheet whose calls succeed, appends exactly `[key, timestamp]` at the end, after a header if the sheet held no values, and returns success |
| `Subscription.ChangesAtMostHeaderAndRow` | store/views.py:76-126 | whatever the faults, the rows are unchanged, or gain a header on an empty sheet, or gain the header (if needed) and then one row `[key, timestamp]`, the last only for a valid address whose key was not listed; success comes with "Thank you for subscribing!" and only with it |
| `Subscription.ReconcileAfterFailedAppend` | store/views.py:111-121 | after a failed append, a row that was stored anyway is recognised exactly when the reconciliation read works; after a dropped append, the call succeeds exactly when that read works and the last row already held the key; otherwise it returns the "saving" error |
| `Subscription.KeyIsNotHeader` | store/views.py:82-90 | the key of a valid address is never the header cell's key |
| `Subscription.WithHeaderValid` | store/views.py:88-90 | adding the header to an empty sheet keeps it valid and lists no address |
| `Subscription.AppendFreshValid` | store/views.py:107-108 | appending the row of an unlisted address keeps the sheet valid and lists the address |
| `Subscription.SubscribePreservesValid` | store/views.py:76-126 | every call keeps the sheet valid: a header first, and no address stored twice |
| `Subscription.SuccessPath` | store/views.py:78-121 | a call succeeds only for a valid address on a sheet that opened and was read, whose key was not listed; then either the row was appended, or the append was dropped and the last row already held the key |
| `Subscription.LastRowListed` | store/views.py:116-117 | on a sheet that starts with the header, a last row holding a valid address's key is not the header, so the key is listed |
| `Subscription.SuccessMeansStored` | store/views.py:107-118 | on a valid sheet, a successful call leaves the address listed, including when success comes from reconciliation |
| `Subscription.NoDoubleSubscription` | store/views.py:95-104 | on a valid sheet, once an address has been accepted, a second call for it that can read the sheet is rejected as already subscribed |
| `Subscription.AsWrittenAppends` | store/views.py:89-110 | as written, on a worksheet with grid rows, an unlisted address is appended with no header |
| `Subscription.AsWrittenSubscribesTwice` | store/views.py:89-104 | as written, on an empty worksheet with grid rows, any valid address is accepted twice and stored twice |
| `Subscription.LowerCaseKey` | store/views.py:82 | "a@b.com" is valid and is its own key |
| `Subscription.UpperCaseKey` | store/views.py:82 | "A@B.com" is valid and has the key "a@b.com" |
| `Subscription.SignupScenario` | store/views.py:76-126 | on an empty sheet, a valid address is accepted and becomes the only listed address, after the header; another valid address with the same key is then rejected as already subscribed |
| `Subscription.SignupExample` | store/views.py:76-126 | on an empty sheet, "a@b.com" is accepted and stored after the header; "A@B.com" is then rejected as already subscribed |
| `Subscription.Sheet.constructor` | store/views.py:86 | the worksheet holds the given rows and faults |
| `Subscription.Sheet.RowCount` | store/views.py:89 | the number of rows holding values (the header condition as intended; see Findings) |
| `Subscription.Sheet.AppendRow` | store/views.py:108 | `append_row` reports success only when delivered, and the rows become `Written` of the old rows |
| `Subscription.Sheet.GetAllValues` | store/views.py:95 | `get_all_values` returns every row, or nothing when the call raises |
| `Subscription.SaveToGoogleSheet` | store/views.py:76-126 | the returned pair and the new rows are those `Subscribe` gives for the old rows; a valid sheet stays valid |
| `Views.IsAjaxPost` | store/views.py:129 | definition: a POST whose `X-Requested-With` header is `XMLHttpRequest` |
| `Views.FormEmail` | store/views.py:130 | definition: the form field `email`, or the empty string when it is missing |
| `Views.SaveRequest` | store/views.py:129-136 | `index` calls the save only for a POST marked `XMLHttpRequest` whose field is not blank, and then passes the stripped field, which is non-empty and neither starts nor ends with whitespace |
| `Views.Respond` | store/views.py:128-158 | other requests get the page; a blank field gets 400 "Email is required"; a save gets 200 "success" exactly when it succeeded, otherwise 400 "error", and in both cases the save's message; no answer is 500 |
| `Views.SaveFailureIsBadRequest` | store/views.py:138-148 | every non-success of the save, backend failures included, becomes 400 with the save's message; success becomes 200 with "Thank you for subscribing!" |
| `Views.Index` | store/views.py:128-158 | the sheet changes only through the save, and only when `SaveRequest` names an address; the answer is `Respond` of the save's outcome |

## Findings

| source | as written | input that shows it | evidently intended | confidence | as-written member | corrected member |
|---|---|---|---|---|---|---|
| store/views.py:89-90 | the header is added when `sheet.row_count == 0`. In gspread, `row_count` is the worksheet's grid size, and a worksheet always has grid rows (1000 on a new sheet), so the header is never written. The first subscriber then fills row 0, which the duplicate check at :97 skips as the header. | a new worksheet (no values, grid rows > 0); subscribe any valid address, such as "a@b.com", twice with no faults: both calls return success and the sheet holds `[["a@b.com", t1], ["a@b.com", t2]]` | add the header when the worksheet holds no values, so that row 0 is always the header and every subscriber is checked | not executed; confidence medium (rests on gspread's meaning of `row_count`) | `Subscription.SubscribeAsWritten`, `Subscription.AsWrittenSubscribesTwice` | `Subscription.Subscribe`, `Subscription.NoDoubleSubscription` |

The rest of the model uses the corrected header condition: `Sheet.RowCount` reports the rows that
hold values.

## Left out

- `get_google_sheet` (store/views.py:15-40): loading credentials from a file or the environment,
  authorising, and opening the sheet by key. Foreign calls. The model keeps only whether opening
  fails (`Faults.open`).
- `get_excel_path` (store/views.py:55-74): directory and file I/O, and nothing calls it.
- The first definition of `is_valid_email` (store/views.py:42-45) is identical to the second and
  is replaced by it. One model covers both.
- `datetime.now().strftime('%Y-%m-%d %H:%M:%S')` (store/views.py:83): the clock is read outside
  the model; its text is the `timestamp` parameter.
- Logging throughout: it has no effect on results.
- Django's `render` and `JsonResponse`: modelled as the `Response` datatype. Django looks up the
  header name `X-Requested-With` case-insensitively; the model takes the looked-up value.
- `Text.Lower`: Python's `str.lower()` also lowers non-ASCII letters, and for a few it changes the
  length. The model lowers ASCII letters only. This is exact for any address that passes
  validation, but not for arbitrary sheet cells that are compared with it.
- The race between concurrent requests between the read at :95 and the append at :108. The model
  covers one request at a time.
- gspread's grid: apart from the header condition in Findings, the worksheet is its rows of values.
  Which grid row `append_row` fills is not modelled.
- `store/models.py` (a declarative ORM model the view never uses) and `store/admin.py` (admin
  configuration) are not part of this model.
