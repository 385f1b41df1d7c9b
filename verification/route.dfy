/** The `POST /api/generate` handler: reads the request body, rejects a falsy prompt with
    400, calls the code-generation service, folds the generated files into an archive keyed
    by path and answers with a zip attachment, or with 500 for any failure. The JSON body
    reader, the service's model and parser, and the zip encoder are parameters or left out. */
module Route {
  import opened Wrappers
  import opened Text
  import opened Gemini

  /** The fields the handler reads from the request body; None is `undefined` or `null`. */
  datatype RequestBody = RequestBody(prompt: Option<string>, deploymentPreference: Option<string>)

  datatype JsonBody =
    | ErrorBody(error: string)
    | ErrorDetailsBody(error: string, details: string)

  /** What the handler answers: a JSON body with a status, or the zip archive (status 200)
      with its two headers. The archive is its entries, path to content. */
  datatype Response =
    | Json(status: nat, body: JsonBody)
    | Attachment(contentType: string, contentDisposition: string, archive: map<string, string>)
  {
    function Status(): nat {
      match this
      case Json(status, _) => status
      case Attachment(_, _, _) => 200
    }
  }

  /** The response, and the arguments `generateCode` was called with, if it was called. */
  datatype PostOutcome = PostOutcome(response: Response, invoked: Option<GenerateCodeParams>)

  const PromptRequired := "Prompt is required"
  const GenerationFailed := "Failed to generate code"
  const ZipContentType := "application/zip"

  // ---------------------------------------------------------------------------
  // The archive: for (const file of files) zip.file(file.path, file.content)
  // ---------------------------------------------------------------------------

  function Paths(files: seq<GeneratedFile>): set<string> {
    set f | f in files :: f.path
  }

  /** No later file than `files[i]` has its path. */
  ghost predicate LastWithPath(files: seq<GeneratedFile>, i: int) {
    0 <= i < |files| && forall k :: i < k < |files| ==> files[k].path != files[i].path
  }

  /** The archive after adding the files in order, each entry overwriting any earlier one
      with the same path: its paths are the files' paths, and each path holds the content of
      the last file with that path. */
  function Archive(files: seq<GeneratedFile>): (zip: map<string, string>)
    ensures zip.Keys == Paths(files)
    ensures forall i :: LastWithPath(files, i) ==> zip[files[i].path] == files[i].content
    decreases |files|
  {
    if files == [] then map[]
    else
      var init := files[..|files| - 1];
      var last := files[|files| - 1];
      assert files == init + [last];
      assert forall i :: LastWithPath(files, i) && i < |init| ==> LastWithPath(init, i);
      Archive(init)[last.path := last.content]
  }

  /** Adding a file to the end of the list adds or overwrites exactly its entry. */
  lemma ArchiveAppend(files: seq<GeneratedFile>, f: GeneratedFile)
    ensures Archive(files + [f]) == Archive(files)[f.path := f.content]
  {
    assert (files + [f])[..|files|] == files;
  }

  /** Files with distinct paths each keep their own content. */
  lemma ArchiveOfDistinctPaths(files: seq<GeneratedFile>)
    requires forall i, j :: 0 <= i < j < |files| ==> files[i].path != files[j].path
    ensures |Archive(files).Keys| == |files|
    ensures forall f :: f in files ==> Archive(files)[f.path] == f.content
  {
    forall f | f in files
      ensures Archive(files)[f.path] == f.content
    {
      var i :| 0 <= i < |files| && files[i] == f;
      assert LastWithPath(files, i);
    }
    PathsOfDistinct(files);
  }

  lemma {:induction false} PathsOfDistinct(files: seq<GeneratedFile>)
    requires forall i, j :: 0 <= i < j < |files| ==> files[i].path != files[j].path
    ensures |Paths(files)| == |files|
    decreases |files|
  {
    if files != [] {
      var init := files[..|files| - 1];
      var last := files[|files| - 1];
      assert files == init + [last];
      assert Paths(files) == Paths(init) + {last.path};
      forall f | f in init
        ensures f.path != last.path
      {
        var i :| 0 <= i < |init| && init[i] == f;
        assert files[i] == f;
      }
      PathsOfDistinct(init);
    }
  }

  // ---------------------------------------------------------------------------
  // Headers and log previews
  // ---------------------------------------------------------------------------

  const AttachmentLead := "attachment; "
  const FilenameParam := "filename=\""

  /** `attachment; filename="<repositoryName>.zip"`: the lead, the `filename="` parameter, the
      archive name and a closing quote, at offsets fixed by the lead and the parameter. */
  function ContentDisposition(repositoryName: string): (h: string)
    ensures |h| == |AttachmentLead| + |FilenameParam| + |repositoryName| + 5
    ensures h[..|AttachmentLead|] == AttachmentLead
    ensures h[|AttachmentLead|..|AttachmentLead| + |FilenameParam|] == FilenameParam
    ensures h[|AttachmentLead| + |FilenameParam|..|h| - 1] == repositoryName + ".zip"
    ensures h[|h| - 1] == '"'
  {
    var h := AttachmentLead + FilenameParam + (repositoryName + ".zip") + "\"";
    assert h[|AttachmentLead| + |FilenameParam|..|h| - 1] == repositoryName + ".zip";
    h
  }

  /** A character a header value may hold: the Fetch `Headers` of the `Response` constructor
      take the value as a WebIDL ByteString (every code unit at most U+00FF) and refuse NUL,
      LF and CR in it. */
  predicate HeaderChar(c: char) {
    c <= '\U{00FF}' && c != '\0' && c != '\n' && c != '\r'
  }

  /** A header value the `Response` constructor accepts. Leading and trailing HTTP whitespace
      would be stripped first; `Content-Disposition` has none, so it plays no part here. */
  predicate HeaderSafe(v: string) {
    forall i :: 0 <= i < |v| ==> HeaderChar(v[i])
  }

  /** A stand-in for the message of the `TypeError` the `Response` constructor throws for a
      refused header. */
  const HeaderRejected := "Invalid header value"

  lemma HeaderSafeConcat(a: string, b: string)
    ensures HeaderSafe(a + b) <==> HeaderSafe(a) && HeaderSafe(b)
  {
    if HeaderSafe(a + b) {
      forall i | 0 <= i < |a|
        ensures HeaderChar(a[i])
      {
        assert a[i] == (a + b)[i];
      }
      forall i | 0 <= i < |b|
        ensures HeaderChar(b[i])
      {
        assert b[i] == (a + b)[|a| + i];
      }
    }
  }

  /** The fixed parts of the header are safe, so the `Response` constructor accepts the
      header exactly when it accepts the repository name. */
  lemma HeaderSafeDisposition(repositoryName: string)
    ensures HeaderSafe(ContentDisposition(repositoryName)) <==> HeaderSafe(repositoryName)
  {
    var z := repositoryName + ".zip";
    assert ContentDisposition(repositoryName) == AttachmentLead + FilenameParam + z + "\"";
    assert HeaderSafe(AttachmentLead) by {
      forall i | 0 <= i < |AttachmentLead|
        ensures HeaderChar(AttachmentLead[i])
      {
      }
    }
    assert HeaderSafe(FilenameParam) by {
      forall i | 0 <= i < |FilenameParam|
        ensures HeaderChar(FilenameParam[i])
      {
      }
    }
    assert HeaderSafe(".zip") by {
      forall i | 0 <= i < 4
        ensures HeaderChar(".zip"[i])
      {
      }
    }
    assert HeaderSafe("\"");
    HeaderSafeConcat(repositoryName, ".zip");
    HeaderSafeConcat(AttachmentLead, FilenameParam);
    HeaderSafeConcat(AttachmentLead + FilenameParam, z);
    HeaderSafeConcat(AttachmentLead + FilenameParam + z, "\"");
  }

  function Min(a: nat, b: nat): nat {
    if a <= b then a else b
  }

  /** `p.substring(0, n)` followed by "..." exactly when `p` is longer than `n`. */
  function Truncate(p: string, n: nat): (r: string)
    ensures |r| <= n + 3
    ensures |p| <= n ==> r == p
    ensures |p| > n ==> |r| == n + 3 && r[..n] == p[..n] && r[n..] == "..."
  {
    p[..Min(n, |p|)] + (if |p| > n then "..." else "")
  }

  /** How a log line echoes the prompt: `${prompt?.substring(0, n) || fallback}` followed by
      `${prompt && prompt.length > n ? '...' : ''}`. For a present prompt and a positive limit
      that is the truncation; a missing or empty prompt shows as the fallback, and a zero
      limit cuts a present prompt to nothing, leaving the fallback and "...". */
  function Preview(prompt: Option<string>, n: nat, fallback: string): (r: string)
    ensures Truthy(prompt) && n > 0 ==> r == Truncate(prompt.value, n)
    ensures Truthy(prompt) && n == 0 ==> r == fallback + "..."
    ensures !Truthy(prompt) ==> r == fallback
  {
    var head := if prompt.Some? then prompt.value[..Min(n, |prompt.value|)] else [];
    assert Truthy(prompt) && n > 0 ==> head != [] by {
      if Truthy(prompt) && n > 0 {
        assert head[0] == prompt.value[0];
      }
    }
    (if head != [] then head else fallback) + (if Truthy(prompt) && |prompt.value| > n then "..." else "")
  }

  /** The query echo of the info log line (100 characters, empty when missing). */
  function InfoPreview(prompt: Option<string>): string {
    Preview(prompt, 100, "")
  }

  /** The query echo of the success log line (50 characters, empty when missing). */
  function SuccessPreview(prompt: Option<string>): string {
    Preview(prompt, 50, "")
  }

  /** The query echo of the error log line (50 characters, 'unknown' when missing). */
  function ErrorPreview(prompt: Option<string>): string {
    Preview(prompt, 50, "unknown")
  }

  /** The three log lines: at most the limit plus "...", and a missing or empty prompt shows
      as '' in the info and success lines and as 'unknown' in the error line. */
  lemma LogPreviews(prompt: Option<string>)
    ensures Truthy(prompt) ==> InfoPreview(prompt) == Truncate(prompt.value, 100)
    ensures Truthy(prompt) ==> SuccessPreview(prompt) == Truncate(prompt.value, 50)
    ensures Truthy(prompt) ==> ErrorPreview(prompt) == Truncate(prompt.value, 50)
    ensures !Truthy(prompt) ==> InfoPreview(prompt) == "" && SuccessPreview(prompt) == ""
    ensures !Truthy(prompt) ==> ErrorPreview(prompt) == "unknown"
  {
  }

  // ---------------------------------------------------------------------------
  // POST
  // ---------------------------------------------------------------------------

  /** The 500 answer for an exception with message `m`. */
  function Failed(m: string): Response {
    Json(500, ErrorDetailsBody(GenerationFailed, m))
  }

  /** The handler. `body` is what `request.json()` produced, or the message it threw;
      `model` and `parse` are the service's collaborators. Building the answer throws, and so
      answers 500, when the `Response` constructor refuses the `Content-Disposition` value. */
  function Post(body: Result<RequestBody, string>, model: string -> ModelReply,
                parse: string -> Option<GeneratedCode>): (out: PostOutcome)
    ensures body.Failure? ==> out == PostOutcome(Failed(body.error), None)
    ensures body.Success? && !Truthy(body.value.prompt) ==>
      out == PostOutcome(Json(400, ErrorBody(PromptRequired)), None)
    ensures body.Success? && Truthy(body.value.prompt) ==>
      out.invoked == Some(GenerateCodeParams(body.value.prompt.value, body.value.deploymentPreference))
  {
    match body
    case Failure(m) => PostOutcome(Failed(m), None)
    case Success(RequestBody(prompt, deploymentPreference)) =>
      if !Truthy(prompt) then
        PostOutcome(Json(400, ErrorBody(PromptRequired)), None)
      else
        var params := GenerateCodeParams(prompt.value, deploymentPreference);
        var response :=
          match GenerateCode(params, model, parse)
          case Failure(m) => Failed(m)
          case Success(code) =>
            var disposition := ContentDisposition(code.repositoryName);
            if HeaderSafe(disposition) then Attachment(ZipContentType, disposition, Archive(code.files))
            else Failed(HeaderRejected);
        PostOutcome(response, Some(params))
  }

  /** `generateCode` is called exactly when the body was read and the prompt is a non-empty
      string; a whitespace-only prompt is such a string. */
  lemma PostInvokesIffTruthyPrompt(body: Result<RequestBody, string>, model: string -> ModelReply,
                                   parse: string -> Option<GeneratedCode>)
    ensures Post(body, model, parse).invoked.Some? <==> body.Success? && Truthy(body.value.prompt)
    ensures Post(body, model, parse).response.Status() == 400 <==> body.Success? && !Truthy(body.value.prompt)
  {
  }

  /** A whitespace-only prompt passes the server's check, with whatever preference. */
  lemma BlankPromptPassesGate(p: string, d: Option<string>, model: string -> ModelReply,
                              parse: string -> Option<GeneratedCode>)
    requires p != [] && AllWs(p)
    ensures Post(Success(RequestBody(Some(p), d)), model, parse).invoked == Some(GenerateCodeParams(p, d))
  {
  }

  /** Every answer is 200 with the archive, 400 with 'Prompt is required', or 500 with
      'Failed to generate code' and the message of the failure. */
  lemma PostResponseShapes(body: Result<RequestBody, string>, model: string -> ModelReply,
                           parse: string -> Option<GeneratedCode>)
    ensures var r := Post(body, model, parse).response;
      || (r.Attachment? && r.contentType == ZipContentType)
      || r == Json(400, ErrorBody(PromptRequired))
      || (r.Json? && r.status == 500 && r.body.ErrorDetailsBody? && r.body.error == GenerationFailed)
  {
    if body.Success? && Truthy(body.value.prompt) {
      var params := GenerateCodeParams(body.value.prompt.value, body.value.deploymentPreference);
      match GenerateCode(params, model, parse)
      case Success(code) =>
      case Failure(_) =>
    }
  }

  /** A successful generation answers with the zip content type, the attachment header for
      the repository name and the archive of the files; a failed one answers 500 carrying
      the service's message. */
  lemma PostAfterGeneration(params: GenerateCodeParams, model: string -> ModelReply,
                            parse: string -> Option<GeneratedCode>)
    requires Truthy(Some(params.prompt))
    ensures var r := Post(Success(RequestBody(Some(params.prompt), params.deploymentPreference)), model, parse).response;
      match GenerateCode(params, model, parse)
      case Success(code) =>
        if HeaderSafe(code.repositoryName) then
          && r.Attachment?
          && r.contentType == "application/zip"
          && r.contentDisposition == ContentDisposition(code.repositoryName)
          && r.archive == Archive(code.files)
        else r == Json(500, ErrorDetailsBody("Failed to generate code", HeaderRejected))
      case Failure(m) => r == Json(500, ErrorDetailsBody("Failed to generate code", m))
  {
    match GenerateCode(params, model, parse)
    case Success(code) => HeaderSafeDisposition(code.repositoryName);
    case Failure(_) =>
  }

  /** A reply the parser rejects surfaces as 500 with the service's parse-failure message. */
  lemma UnparsableReplyIs500(params: GenerateCodeParams, model: string -> ModelReply,
                             parse: string -> Option<GeneratedCode>)
    requires Truthy(Some(params.prompt))
    requires model(RenderPrompt(params)).ReplyText?
    requires parse(ParsedText(model(RenderPrompt(params)).text)).None?
    ensures Post(Success(RequestBody(Some(params.prompt), params.deploymentPreference)), model, parse).response
         == Json(500, ErrorDetailsBody("Failed to generate code", "Failed to parse the generated code response"))
  {
  }
}
