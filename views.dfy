/**
 * The view `index`: a POST sent by the page's script gets a JSON answer, anything else gets
 * the page. The request is reduced to the three things `index` looks at; the response to its
 * status code, `status` and `message`, or the rendered page.
 */
module Views {
  import opened Wrappers
  import opened Text
  import opened Subscription

  /** `request.method`, the value of the `X-Requested-With` header, and the form field `email`. */
  datatype Request = Request(verb: string, requestedWith: Option<string>, emailField: Option<string>)

  /** `render(request, 'index.html')`, or a `JsonResponse` with its status code. */
  datatype Response = Page | Json(code: int, status: string, message: string)

  const EmailRequired := "Email is required"

  /** The request is a POST sent by the page's script, which marks it with the header
      `X-Requested-With: XMLHttpRequest`; only such requests get a JSON answer. */
  predicate IsAjaxPost(req: Request) {
    req.verb == "POST" && req.requestedWith == Some("XMLHttpRequest")
  }

  /** `request.POST.get('email') or ''`: a missing field reads as the empty string. */
  function FormEmail(req: Request): string {
    match req.emailField
    case Some(e) => e
    case None => ""
  }

  /** The address `index` passes to `save_to_google_sheet`, or `None` when it answers without
      calling it: the request is not a script POST, or the field is blank. */
  function SaveRequest(req: Request): (r: Option<string>)
    ensures r.None? <==> !IsAjaxPost(req) || AllWhitespace(FormEmail(req))
    ensures r.Some? ==> r.value == Strip(FormEmail(req))
    ensures r.Some? ==> r.value != "" && !IsWhitespace(r.value[0]) && !IsWhitespace(r.value[|r.value| - 1])
  {
    StripEmptyIffBlank(FormEmail(req));
    StripEdges(FormEmail(req));
    var email := Strip(FormEmail(req));
    if IsAjaxPost(req) && email != "" then Some(email) else None
  }

  /** The answer `index` gives for a request, given what `save_to_google_sheet` returns for the
      address of `SaveRequest(req)` (ignored when there is none). */
  function Respond(req: Request, saved: (bool, string)): (r: Response)
    ensures r.Page? <==> !IsAjaxPost(req)
    ensures r.Json? ==> r.code == 200 || r.code == 400
    ensures r.Json? ==> (r.code == 200 <==> r.status == "success")
    ensures r.Json? && r.code == 400 ==> r.status == "error"
    ensures (r.Json? && r.code == 200) <==> (SaveRequest(req).Some? && saved.0)
    ensures SaveRequest(req).None? && IsAjaxPost(req) ==> r == Json(400, "error", EmailRequired)
    ensures SaveRequest(req).Some? ==> r.Json? && r.message == saved.1
  {
    match SaveRequest(req)
    case None => if IsAjaxPost(req) then Json(400, "error", EmailRequired) else Page
    case Some(_) =>
      if saved.0 then Json(200, "success", saved.1) else Json(400, "error", saved.1)
  }

  /** Every failure of the save, including the backend errors, reaches the client as a 400 that
      carries the save's own message; no path of `index` answers 500. */
  lemma SaveFailureIsBadRequest(req: Request, rows: seq<Row>, faults: Faults, timestamp: string)
    requires SaveRequest(req).Some?
    ensures var o := Subscribe(rows, faults, SaveRequest(req).value, timestamp);
      Respond(req, (o.success, o.message)) ==
        if o.success then Json(200, "success", Thanks) else Json(400, "error", o.message)
  {
    ChangesAtMostHeaderAndRow(rows, faults, SaveRequest(req).value, timestamp);
  }

  /** `index(request)` against `sheet`, with the clock reading `timestamp`. It touches the sheet
      only through `save_to_google_sheet`, and only when `SaveRequest` names an address. */
  method Index(req: Request, sheet: Sheet, timestamp: string) returns (resp: Response)
    modifies sheet`rows
    ensures SaveRequest(req).None? ==>
      sheet.rows == old(sheet.rows) && resp == Respond(req, (false, ""))
    ensures SaveRequest(req).Some? ==>
      var o := Subscribe(old(sheet.rows), sheet.faults, SaveRequest(req).value, timestamp);
      sheet.rows == o.rows && resp == Respond(req, (o.success, o.message))
  {
    if IsAjaxPost(req) {
      var email := Strip(FormEmail(req));
      if email == "" {
        return Json(400, "error", EmailRequired);
      }
      var success, message := SaveToGoogleSheet(sheet, email, timestamp);
      if success {
        return Json(200, "success", message);
      } else {
        return Json(400, "error", message);
      }
    }
    return Page;
  }
}
