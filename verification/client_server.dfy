/** The page and the handler together: what the page sees of each answer the handler gives,
    and what a submission comes to end to end. */
module ClientServer {
  import opened Wrappers
  import opened Text
  import opened Gemini
  import Route
  import Page

  /** The page's view of a response: `response.ok` is a 2xx status, a JSON body's `error`
      field is what `response.json()` yields, and only the archive carries
      `Content-Disposition`. */
  function View(resp: Route.Response): (a: Page.Answer)
    ensures a.Ok? <==> 200 <= resp.Status() < 300
    ensures resp.Attachment? ==> a == Page.Ok(Some(resp.contentDisposition))
  {
    match resp
    case Json(status, body) =>
      if 200 <= status < 300 then Page.Ok(None) else Page.NotOk(Success(Some(body.error)))
    case Attachment(_, cd, _) => Page.Ok(Some(cd))
  }

  /** `fetch` wired to the handler. `JSON.stringify` drops an `undefined` preference and
      `request.json()` reads it back as missing, so the handler receives the body as sent. */
  function Connect(model: string -> ModelReply, parse: string -> Option<GeneratedCode>):
    Route.RequestBody -> Result<Page.Answer, string>
  {
    body => Success(View(Route.Post(Success(body), model, parse).response))
  }

  /** Wired to the handler, a request always gets an answer, never a thrown error; the page
      sees it as OK exactly when the handler sent the archive, and then with its header; any
      other answer reaches the page as the `error` field of its JSON body. */
  lemma ConnectAnswers(model: string -> ModelReply, parse: string -> Option<GeneratedCode>,
                       body: Route.RequestBody)
    ensures Connect(model, parse)(body).Success?
    ensures var r := Route.Post(Success(body), model, parse).response;
      var a := Connect(model, parse)(body).value;
      && (a.Ok? <==> r.Attachment?)
      && (r.Attachment? ==> a == Page.Ok(Some(r.contentDisposition)))
      && (r.Json? ==> a == Page.NotOk(Success(Some(r.body.error))))
  {
  }

  /** Where the page's key sits in the handler's header: right after `attachment; `. */
  const KeyAt := |Route.AttachmentLead|

  /** Where the archive name sits in the handler's header: right after the key. */
  const NameAt := |Route.AttachmentLead| + |Route.FilenameParam|

  /** The name the handler puts in `Content-Disposition` comes back out of the page's regular
      expression as `<repositoryName>.zip` exactly when it has no line terminator. */
  lemma FilenameRoundTrip(name: string)
    ensures Page.ExtractFilename(Some(Route.ContentDisposition(name))) == name + ".zip"
        <==> NoLineTerminator(name)
  {
    var h := Route.ContentDisposition(name);
    var z := name + ".zip";
    if NoLineTerminator(name) {
      DispositionCapture(name);
      assert h[NameAt..|h| - 1] == z;
    } else {
      var m :| 0 <= m < |name| && IsLineTerminator(name[m]);
      assert z[m] == name[m];
    }
  }

  /** In the header for a name without line terminators, the match starts at the one
      `filename="` and runs to the closing quote at the very end. */
  lemma DispositionCapture(name: string)
    requires NoLineTerminator(name)
    ensures var h := Route.ContentDisposition(name);
      && h[NameAt..|h| - 1] == name + ".zip"
      && Page.FirstCapture(h, KeyAt, |h| - 1)
  {
    var h := Route.ContentDisposition(name);
    var z := name + ".zip";
    assert Route.FilenameParam == Page.FilenameKey;
    forall m | 0 <= m < |z|
      ensures !IsLineTerminator(z[m])
    {
      if m >= |name| {
        assert z[m] == ".zip"[m - |name|];
      } else {
        assert z[m] == name[m];
      }
    }
    assert h[NameAt..|h| - 1] == z;
    assert Page.CaptureAt(h, KeyAt, |h| - 1) by {
      forall m | NameAt <= m < |h| - 1
        ensures !IsLineTerminator(h[m])
      {
        assert h[m] == z[m - NameAt];
      }
    }
    forall i' | 0 <= i' < KeyAt
      ensures h[i'] != 'f'
    {
      assert h[i'] == Route.AttachmentLead[i'];
    }
    forall i', k' | Page.CaptureAt(h, i', k')
      ensures KeyAt < i' || (KeyAt == i' && k' <= |h| - 1)
    {
      assert h[i'] == Page.FilenameKey[0];
    }
  }

  /** Applied to the header string built for a repository name with a line break in it, the
      page's expression finds no match and falls back to "mongodb-app.zip". The handler never
      sends that header (the `Response` constructor refuses the line feed and the answer is
      500), so this is a fact about the expression, not about a submission. */
  lemma LineBreakInNameFallsBack(name: string)
    requires name == "a\nb"
    ensures Page.ExtractFilename(Some(Route.ContentDisposition(name))) == "mongodb-app.zip"
  {
    var h := Route.ContentDisposition(name);
    var last := |h| - |Page.FilenameKey|;
    assert Route.FilenameParam == Page.FilenameKey;
    assert h[NameAt + 1] == (name + ".zip")[1] == '\n';
    assert |h| == NameAt + 8;
    forall i | 0 <= i <= last && i != KeyAt
      ensures h[i] != 'f'
    {
      if i < KeyAt {
        assert h[i] == h[..KeyAt][i] == Route.AttachmentLead[i];
      } else {
        assert h[i] == h[KeyAt..NameAt][i - KeyAt] == Page.FilenameKey[i - KeyAt];
      }
    }
    forall i: int, k: int
      ensures !Page.CaptureAt(h, i, k)
    {
      if 0 <= i <= last && i != KeyAt {
        assert !OccursAt(h, Page.FilenameKey, i) by {
          assert i + |Page.FilenameKey| <= |h| ==> h[i..i + |Page.FilenameKey|][0] == h[i];
        }
      } else if i == KeyAt && NameAt < k {
        assert IsLineTerminator(h[NameAt + 1]) && h[NameAt + 1] != '"';
      }
    }
  }

  /** The handler's two error answers as the page shows them: the 400 as
      "Prompt is required", and every 500 as "Failed to generate code", whatever its
      `details`. */
  lemma ErrorAnswersAsShown(details: string)
    ensures Page.NotOkMessage(View(Route.Json(400, Route.ErrorBody(Route.PromptRequired))).errorData)
         == "Prompt is required"
    ensures Page.NotOkMessage(View(Route.Failed(details)).errorData) == "Failed to generate code"
  {
  }

  /** A prompt the page accepts always passes the handler's check: `generateCode` is called
      with the prompt as typed and the trimmed preference, and the answer is never the 400. */
  lemma AcceptedPromptPassesGate(s: Page.PageState, model: string -> ModelReply,
                                 parse: string -> Option<GeneratedCode>)
    requires Trim(s.prompt) != []
    ensures var out := Route.Post(Success(Page.RequestBodyOf(s)), model, parse);
      && out.invoked == Some(GenerateCodeParams(s.prompt, Page.RequestBodyOf(s).deploymentPreference))
      && out.response.Status() != 400
  {
    assert s.prompt == [] ==> AllWs(s.prompt);
    Route.PostInvokesIffTruthyPrompt(Success(Page.RequestBodyOf(s)), model, parse);
  }

  /** The archive answer for a name the header accepts is saved as `<name>.zip`. */
  lemma SavedUnderRepositoryName(s: Page.PageState, body: Route.RequestBody, name: string)
    requires Route.HeaderSafe(name)
    ensures var out := Page.Settle(s, body, Success(Page.Ok(Some(Route.ContentDisposition(name)))));
      out.final.error == [] && out.savedAs == Some(name + ".zip")
  {
    Page.SavedName(s, body, Some(Route.ContentDisposition(name)));
    assert NoLineTerminator(name) by {
      forall m | 0 <= m < |name|
        ensures !IsLineTerminator(name[m])
      {
        assert Route.HeaderChar(name[m]);
      }
    }
    FilenameRoundTrip(name);
  }

  /** The handler's 500 shows as "Failed to generate code" and saves nothing. */
  lemma ServerFailureShown(s: Page.PageState, body: Route.RequestBody)
    ensures var out := Page.Settle(s, body, Success(Page.NotOk(Success(Some(Route.GenerationFailed)))));
      out.final.error == "Failed to generate code" && out.savedAs.None?
  {
    Page.ShownError(s, body, Success(Page.NotOk(Success(Some(Route.GenerationFailed)))));
  }

  /** One submission end to end: on a generated repository whose name the header accepts,
      the page clears the error and saves `<repositoryName>.zip`; on any other name, and on
      any failure of the service, it shows "Failed to generate code" and saves nothing. */
  lemma SubmitEndToEnd(s: Page.PageState, model: string -> ModelReply,
                       parse: string -> Option<GeneratedCode>)
    requires Trim(s.prompt) != []
    ensures var out := Page.HandleSubmit(s, Connect(model, parse));
      var params := GenerateCodeParams(s.prompt, Page.RequestBodyOf(s).deploymentPreference);
      && out.sent == Some(Page.RequestBodyOf(s))
      && !out.final.isGenerating
      && match GenerateCode(params, model, parse)
         case Success(code) =>
           if Route.HeaderSafe(code.repositoryName) then
             out.final.error == [] && out.savedAs == Some(code.repositoryName + ".zip")
           else out.final.error == "Failed to generate code" && out.savedAs.None?
         case Failure(_) => out.final.error == "Failed to generate code" && out.savedAs.None?
  {
    var body := Page.RequestBodyOf(s);
    var params := GenerateCodeParams(s.prompt, body.deploymentPreference);
    assert s.prompt == [] ==> AllWs(s.prompt);
    Route.PostAfterGeneration(params, model, parse);
    var answer := View(Route.Post(Success(body), model, parse).response);
    assert Connect(model, parse)(body) == Success(answer);
    var out := Page.Settle(s, body, Success(answer));
    assert Page.HandleSubmit(s, Connect(model, parse)) == out;
    match GenerateCode(params, model, parse)
    case Success(code) =>
      if Route.HeaderSafe(code.repositoryName) {
        assert answer == Page.Ok(Some(Route.ContentDisposition(code.repositoryName)));
        SavedUnderRepositoryName(s, body, code.repositoryName);
      } else {
        assert answer == Page.NotOk(Success(Some(Route.GenerationFailed)));
        ServerFailureShown(s, body);
      }
    case Failure(m) =>
      assert answer == Page.NotOk(Success(Some(Route.GenerationFailed)));
      ServerFailureShown(s, body);
  }
}
