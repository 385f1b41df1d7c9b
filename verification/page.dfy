/** The form's submit handler: checks the trimmed prompt, shapes the request body, sends it,
    and on success saves the archive under the name taken from `Content-Disposition` with
    `/filename="(.+)"/`, or shows an error message. `fetch` is a parameter; rendering and
    the file download itself are left out. */
module Page {
  import opened Wrappers
  import opened Text
  import Route

  const PromptMissing := "Please enter a description of your application"

  /** The page's own fallback message, used when an error carries no message. */
  const FallbackError := "Failed to generate code"

  const DefaultFilename := "mongodb-app.zip"

  /** The component state `handleSubmit` reads and writes. */
  datatype PageState = PageState(prompt: string, deploymentPreference: string,
                                 isGenerating: bool, error: string)

  /** What the page sees of the answer to its request. For a non-OK answer, the `error`
      field of its JSON body (None when absent) or the message `response.json()` threw; for
      an OK one, the `Content-Disposition` header if present. */
  datatype Answer =
    | NotOk(errorData: Result<Option<string>, string>)
    | Ok(contentDisposition: Option<string>)

  /** One run of `handleSubmit`: the body sent (None when nothing was sent), the state while
      the request is outstanding, the state when it returns, and the name the archive was
      saved under. */
  datatype SubmitOutcome = SubmitOutcome(sent: Option<Route.RequestBody>, whileSending: Option<PageState>,
                                         final: PageState, savedAs: Option<string>)

  // ---------------------------------------------------------------------------
  // Filename recovery: contentDisposition.match(/filename="(.+)"/)
  // ---------------------------------------------------------------------------

  const FilenameKey := "filename=\""

  /** The first line terminator at or after `b`, or `|s|`: how far `.` can reach. */
  function LineEnd(s: string, b: nat): (e: nat)
    requires b <= |s|
    ensures b <= e <= |s|
    ensures forall m :: b <= m < e ==> !IsLineTerminator(s[m])
    ensures e < |s| ==> IsLineTerminator(s[e])
    decreases |s| - b
  {
    if b < |s| && !IsLineTerminator(s[b]) then LineEnd(s, b + 1) else b
  }

  /** The last double quote in `s[lo..hi]`. */
  function LastQuote(s: string, lo: nat, hi: nat): (r: Option<nat>)
    requires lo <= hi <= |s|
    ensures r.Some? ==> lo <= r.value < hi && s[r.value] == '"'
    ensures r.Some? ==> forall m :: r.value < m < hi ==> s[m] != '"'
    ensures r.None? ==> forall m :: lo <= m < hi ==> s[m] != '"'
    decreases hi - lo
  {
    if hi == lo then None
    else if s[hi - 1] == '"' then Some(hi - 1)
    else LastQuote(s, lo, hi - 1)
  }

  /** The expression matches with `filename="` at `i` and its closing quote at `k`: at least
      one character, none of them a line terminator, lies between. */
  ghost predicate CaptureAt(s: string, i: int, k: int) {
    && OccursAt(s, FilenameKey, i) && i + |FilenameKey| < k < |s| && s[k] == '"'
    && forall m :: i + |FilenameKey| <= m < k ==> !IsLineTerminator(s[m])
  }

  /** The match a backtracking matcher reports: the leftmost start, and for it the last
      quote the greedy `.+` can reach. */
  ghost predicate FirstCapture(s: string, i: int, k: int) {
    CaptureAt(s, i, k) && forall i', k' :: CaptureAt(s, i', k') ==> i < i' || (i == i' && k' <= k)
  }

  datatype Span = Span(start: nat, end: nat)

  /** With `filename="` at `i`, where the greedy `.+` stops: the last quote before the end
      of the line with at least one character before it. Every match starting at `i` ends at
      or before it, and None means there is none. */
  function GreedyEnd(s: string, i: nat): (q: Option<nat>)
    requires OccursAt(s, FilenameKey, i)
    ensures forall k' :: CaptureAt(s, i, k') ==> q.Some? && k' <= q.value
    ensures q.Some? ==> CaptureAt(s, i, q.value)
  {
    var b := i + |FilenameKey|;
    var e := LineEnd(s, b);
    assert forall k' :: CaptureAt(s, i, k') ==> k' < e;
    if b + 1 <= e then LastQuote(s, b + 1, e) else None
  }

  /** No match starts at or after `from`. */
  ghost predicate NoCaptureFrom(s: string, from: int) {
    forall i', k' :: from <= i' ==> !CaptureAt(s, i', k')
  }

  /** The match a backtracking matcher reports when it starts looking at `from`. */
  ghost predicate FirstCaptureFrom(s: string, from: int, i: int, k: int) {
    && from <= i && CaptureAt(s, i, k)
    && forall i', k' :: from <= i' && CaptureAt(s, i', k') ==> i < i' || (i == i' && k' <= k)
  }

  /** The first match starting at or after `from`. */
  function FindCapture(s: string, from: nat): (r: Option<Span>)
    ensures r.Some? ==> FirstCaptureFrom(s, from, r.value.start, r.value.end)
    ensures r.None? ==> NoCaptureFrom(s, from)
    decreases |s| - from
  {
    match IndexFrom(s, FilenameKey, from)
    case None => None
    case Some(i) =>
      match GreedyEnd(s, i)
      case Some(k) =>
        CaptureAtKey(s, from, i, k);
        Some(Span(i, k))
      case None =>
        var r := FindCapture(s, i + 1);
        SkipKey(s, from, i, r);
        r
  }

  /** The first `filename="` from `from` on, when its greedy end exists, is the match. */
  lemma CaptureAtKey(s: string, from: nat, i: nat, k: nat)
    requires from <= i && OccursAt(s, FilenameKey, i)
    requires forall j :: from <= j < i ==> !OccursAt(s, FilenameKey, j)
    requires GreedyEnd(s, i) == Some(k)
    ensures FirstCaptureFrom(s, from, i, k)
  {
  }

  /** A `filename="` without a match starting there changes nothing about the search. */
  lemma SkipKey(s: string, from: nat, i: nat, r: Option<Span>)
    requires from <= i && OccursAt(s, FilenameKey, i)
    requires forall j :: from <= j < i ==> !OccursAt(s, FilenameKey, j)
    requires GreedyEnd(s, i).None?
    requires r.Some? ==> FirstCaptureFrom(s, i + 1, r.value.start, r.value.end)
    requires r.None? ==> NoCaptureFrom(s, i + 1)
    ensures r.Some? ==> FirstCaptureFrom(s, from, r.value.start, r.value.end)
    ensures r.None? ==> NoCaptureFrom(s, from)
  {
  }

  /** The name the archive is saved under: the capture when the header is present and
      matches, "mongodb-app.zip" otherwise. */
  function ExtractFilename(header: Option<string>): (name: string)
    ensures NoLineTerminator(name)
    ensures header.None? ==> name == DefaultFilename
    ensures header.Some? ==> forall i, k :: FirstCapture(header.value, i, k) ==>
                               name == header.value[i + |FilenameKey|..k]
    ensures header.Some? && (forall i, k :: !CaptureAt(header.value, i, k)) ==> name == DefaultFilename
    ensures header.Some? && (exists i, k :: CaptureAt(header.value, i, k)) ==>
      exists i, k :: FirstCapture(header.value, i, k)
  {
    match header
    case None => DefaultFilename
    case Some(h) =>
      match FindCapture(h, 0)
      case None => DefaultFilename
      case Some(Span(i, k)) =>
        assert FirstCapture(h, i, k);
        h[i + |FilenameKey|..k]
  }

  // ---------------------------------------------------------------------------
  // handleSubmit
  // ---------------------------------------------------------------------------

  /** `message || "Failed to generate code"`. */
  function OrFallback(message: string): string {
    if message != [] then message else FallbackError
  }

  /** The JSON body the page sends: the prompt as typed, and the deployment preference
      trimmed, left out exactly when it is all whitespace. */
  function RequestBodyOf(s: PageState): (body: Route.RequestBody)
    ensures body.prompt == Some(s.prompt)
    ensures body.deploymentPreference.None? <==> AllWs(s.deploymentPreference)
    ensures body.deploymentPreference.Some? ==>
      IsTrimOf(s.deploymentPreference, body.deploymentPreference.value) && body.deploymentPreference.value != []
  {
    var pref := Trim(s.deploymentPreference);
    Route.RequestBody(Some(s.prompt), if pref != [] then Some(pref) else None)
  }

  /** The message shown for an answer that is not OK: never empty; the body's `error` field
      when it is a non-empty string, or the message of a body that did not parse when that
      is non-empty; the fallback otherwise. */
  function NotOkMessage(errorData: Result<Option<string>, string>): (shown: string)
    ensures shown != []
    ensures errorData.Success? && errorData.value.Some? && errorData.value.value != [] ==>
      shown == errorData.value.value
    ensures errorData.Failure? && errorData.error != [] ==> shown == errorData.error
    ensures shown == FallbackError || errorData == Success(Some(shown)) || errorData == Failure(shown)
  {
    match errorData
    case Success(field) => OrFallback(field.GetOr(""))
    case Failure(m) => OrFallback(m)
  }

  /** `handleSubmit` with `fetch` answering the request body, or failing with a message. */
  function HandleSubmit(s: PageState, fetch: Route.RequestBody -> Result<Answer, string>): (out: SubmitOutcome)
    ensures out.sent.None? <==> Trim(s.prompt) == []
    ensures out.sent.None? ==> out == SubmitOutcome(None, None, s.(error := PromptMissing), None)
    ensures out.sent.Some? ==> out == Settle(s, RequestBodyOf(s), fetch(RequestBodyOf(s)))
  {
    if Trim(s.prompt) == [] then
      SubmitOutcome(None, None, s.(error := PromptMissing), None)
    else
      var body := RequestBodyOf(s);
      Settle(s, body, fetch(body))
  }

  /** The part of `handleSubmit` after validation: the flag is raised and the error cleared
      while `body` is sent, the answer is handled, and the flag is lowered in every case. The
      page ends with an empty error exactly when it saved the archive, which it does exactly
      when the answer is OK. */
  function Settle(s: PageState, body: Route.RequestBody, answer: Result<Answer, string>): (out: SubmitOutcome)
    ensures out.sent == Some(body)
    ensures out.whileSending == Some(s.(isGenerating := true, error := []))
    ensures !out.final.isGenerating
    ensures out.final.prompt == s.prompt && out.final.deploymentPreference == s.deploymentPreference
    ensures out.savedAs.Some? <==> answer.Success? && answer.value.Ok?
    ensures out.savedAs.Some? <==> out.final.error == []
  {
    var sending := s.(isGenerating := true, error := []);
    var done := sending.(isGenerating := false);
    match answer
    case Failure(m) => SubmitOutcome(Some(body), Some(sending), done.(error := OrFallback(m)), None)
    case Success(NotOk(errorData)) =>
      SubmitOutcome(Some(body), Some(sending), done.(error := NotOkMessage(errorData)), None)
    case Success(Ok(header)) =>
      SubmitOutcome(Some(body), Some(sending), done, Some(ExtractFilename(header)))
  }

  /** A non-OK answer shows the server's `error` text when it is a non-empty string, and
      "Failed to generate code" when the body carries none or does not parse; a request that
      fails outright shows its own message, or the same fallback when that is empty. */
  lemma ShownError(s: PageState, body: Route.RequestBody, answer: Result<Answer, string>)
    requires answer.Failure? || answer.value.NotOk?
    ensures var shown := Settle(s, body, answer).final.error;
      match answer
      case Success(NotOk(Success(Some(e)))) => shown == (if e != [] then e else "Failed to generate code")
      case Success(NotOk(Success(None))) => shown == "Failed to generate code"
      case Success(NotOk(Failure(m))) => shown == (if m != [] then m else "Failed to generate code")
      case Failure(m) => shown == (if m != [] then m else "Failed to generate code")
  {
  }

  /** An OK answer saves the archive under the name recovered from its header, and without
      the header, or with one that does not match, under "mongodb-app.zip". */
  lemma SavedName(s: PageState, body: Route.RequestBody, header: Option<string>)
    ensures Settle(s, body, Success(Ok(header))).savedAs == Some(ExtractFilename(header))
    ensures (header.None? || forall i, k :: !CaptureAt(header.value, i, k)) ==>
      Settle(s, body, Success(Ok(header))).savedAs == Some("mongodb-app.zip")
  {
  }
}
