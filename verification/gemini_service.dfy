/** The code-generation service: renders the instruction prompt, sends it to the language
    model, takes the JSON text out of the reply, repairs trailing commas and hands the
    result to the JSON parser. The model and the parser are parameters. */
module Gemini {
  import opened Wrappers
  import opened Text

  datatype GeneratedFile = GeneratedFile(path: string, content: string)

  /** What the parsed reply is taken to be; the service performs no shape check. */
  datatype GeneratedCode = GeneratedCode(repositoryName: string, files: seq<GeneratedFile>)

  datatype GenerateCodeParams = GenerateCodeParams(prompt: string, deploymentPreference: Option<string>)

  /** The model's answer to one prompt: its text, or the message of the error it raised. */
  datatype ModelReply = ReplyText(text: string) | ModelError(message: string)

  const ParseFailureMessage := "Failed to parse the generated code response"

  // ---------------------------------------------------------------------------
  // Prompt rendering
  // ---------------------------------------------------------------------------

  /** The template text before the quoted user prompt. */
  const PromptHead := "\n      Generate a complete application based on the following description:\n      \n      "

  /** The template text between the quoted user prompt and the deployment line. */
  const PromptMiddle := "\n      \n      "

  /** The template lines after the deployment line, one per source line: the rest of the
      deployment line, the fixed requirement list and the closing indentation. */
  const TailLines: seq<string> := [
    @"",
    @"      ",
    @"      Requirements:",
    @"      1. Use MongoDB as the primary database",
    @"      2. Make the app runnable locally with minimal setup",
    @"      3. Include a .env file template for MongoDB connection string configuration",
    @"      4. Include a clear README.md with setup and running instructions",
    @"      5. Ensure all necessary files for a complete, functional application are included",
    @"      6. Keep the code simple, clean, and well-documented",
    @"      7. Format the response as a JSON object with the following structure:",
    @"         {",
    @"           ""repositoryName"": ""a-short-descriptive-name"",",
    @"           ""files"": [",
    @"             { ",
    @"               ""path"": ""relative/file/path"", ",
    @"               ""content"": ""file content as string"" ",
    @"             },",
    @"             ...",
    @"           ]",
    @"         }",
    @"      ",
    @"      Important: All generated code must use MongoDB for data storage. Include proper error handling for database operations.",
    @"    "
  ]

  /** The lines joined by line feeds. */
  function JoinLines(ls: seq<string>): string {
    if ls == [] then "" else if |ls| == 1 then ls[0] else ls[0] + "\n" + JoinLines(ls[1..])
  }

  /** The template text after the deployment line. */
  const PromptTail := JoinLines(TailLines)

  const DeployLead := "The user prefers to deploy with: "

  /** JavaScript truthiness of an optional string: present and non-empty. */
  predicate Truthy(s: Option<string>) {
    s.Some? && s.value != []
  }

  /** The deployment line of the template: the clause for a truthy preference, else empty. */
  function DeployClause(pref: Option<string>): (c: string)
    ensures Truthy(pref) ==> OccursAt(c, DeployLead, 0) && c[|DeployLead|..] == pref.value
    ensures !Truthy(pref) ==> c == []
  {
    if Truthy(pref) then DeployLead + pref.value else []
  }

  /** The quoted prompt as it appears in the template, with no escaping. */
  function Quoted(p: string): string {
    "\"" + p + "\""
  }

  /** A template: fixed text before the quoted prompt, between it and the deployment line,
      and after the deployment line. */
  datatype Template = Template(head: string, middle: string, tail: string)

  /** The instruction `generateCode` sends. */
  const Instruction := Template(PromptHead, PromptMiddle, PromptTail)

  function Render(t: Template, params: GenerateCodeParams): string {
    t.head + Quoted(params.prompt) + t.middle + DeployClause(params.deploymentPreference) + t.tail
  }

  /** The full instruction sent to the model: the fixed opening text, then the user's
      prompt verbatim, unescaped, in double quotes. */
  function RenderPrompt(params: GenerateCodeParams): (r: string)
    ensures OccursAt(r, PromptHead, 0)
    ensures OccursAt(r, "\"" + params.prompt + "\"", |PromptHead|)
  {
    RenderQuotesPrompt(Instruction, params);
    Render(Instruction, params)
  }

  /** The offset of the deployment line in a rendering of `t` for prompt `p`. */
  function DeployLineStart(t: Template, p: string): nat {
    |t.head| + |Quoted(p)| + |t.middle|
  }

  /** Where the parts of a concatenation sit in it. */
  lemma ConcatParts(a: string, b: string, c: string)
    ensures OccursAt(a + b + c, a, 0)
    ensures OccursAt(a + b + c, b, |a|)
    ensures (a + b + c)[|a| + |b|..] == c
  {
    assert (a + b + c)[..|a|] == a;
    assert (a + b + c)[|a|..|a| + |b|] == b;
    assert (a + b + c)[|a| + |b|..] == c;
  }

  /** Equal concatenations with a common prefix and suffix have equal middles. */
  lemma CancelAround(a: string, x: string, y: string, b: string)
    requires a + x + b == a + y + b
    ensures x == y
  {
    assert |x| == |y|;
    assert x == (a + x + b)[|a|..|a| + |x|];
    assert y == (a + y + b)[|a|..|a| + |y|];
  }

  /** The rendering starts with the head, then the prompt verbatim between double quotes. */
  lemma RenderQuotesPrompt(t: Template, params: GenerateCodeParams)
    ensures OccursAt(Render(t, params), t.head, 0)
    ensures OccursAt(Render(t, params), Quoted(params.prompt), |t.head|)
  {
    var rest := t.middle + DeployClause(params.deploymentPreference) + t.tail;
    assert Render(t, params) == t.head + Quoted(params.prompt) + rest;
    ConcatParts(t.head, Quoted(params.prompt), rest);
  }

  /** Two renderings with the same preference are equal exactly when the prompts are. */
  lemma RenderDeterminesPrompt(t: Template, p1: string, p2: string, d: Option<string>)
    requires Render(t, GenerateCodeParams(p1, d)) == Render(t, GenerateCodeParams(p2, d))
    ensures p1 == p2
  {
    RenderQuotesPrompt(t, GenerateCodeParams(p1, d));
    RenderQuotesPrompt(t, GenerateCodeParams(p2, d));
    assert |Quoted(p1)| == |Quoted(p2)|;
    QuotedInjective(p1, p2);
  }

  lemma QuotedInjective(p1: string, p2: string)
    requires Quoted(p1) == Quoted(p2)
    ensures p1 == p2
  {
    CancelAround("\"", p1, p2, "\"");
  }

  /** What follows the middle text: the deployment clause for a truthy preference, and the
      tail right away (an empty line) otherwise. */
  lemma RenderDeploymentLine(t: Template, p: string, d: Option<string>)
    ensures DeployLineStart(t, p) <= |Render(t, GenerateCodeParams(p, d))|
    ensures Truthy(d) ==> Render(t, GenerateCodeParams(p, d))[DeployLineStart(t, p)..] == DeployLead + d.value + t.tail
    ensures !Truthy(d) ==> Render(t, GenerateCodeParams(p, d))[DeployLineStart(t, p)..] == t.tail
    ensures !Truthy(d) ==> Render(t, GenerateCodeParams(p, d)) == Render(t, GenerateCodeParams(p, None))
  {
    var front := t.head + Quoted(p) + t.middle;
    var c := DeployClause(d);
    assert Render(t, GenerateCodeParams(p, d)) == front + c + t.tail;
    ConcatParts(front, c, t.tail);
    assert (front + c + t.tail)[|front|..] == c + t.tail;
  }

  /** For a fixed prompt, a rendering tells a truthy preference apart from a falsy one and
      from every other truthy preference. */
  lemma RenderDeterminesPreference(t: Template, p: string, d1: Option<string>, d2: Option<string>)
    requires Render(t, GenerateCodeParams(p, d1)) == Render(t, GenerateCodeParams(p, d2))
    ensures Truthy(d1) <==> Truthy(d2)
    ensures Truthy(d1) ==> d1 == d2
  {
    var front := t.head + Quoted(p) + t.middle;
    var c1 := DeployClause(d1);
    var c2 := DeployClause(d2);
    assert Render(t, GenerateCodeParams(p, d1)) == front + c1 + t.tail;
    assert Render(t, GenerateCodeParams(p, d2)) == front + c2 + t.tail;
    CancelAround(front, c1, c2, t.tail);
    if Truthy(d1) && Truthy(d2) {
      assert d1.value == c1[|DeployLead|..] == c2[|DeployLead|..] == d2.value;
    }
  }

  /** Different prompts render to different instructions. */
  lemma RenderPromptDeterminesPrompt(p1: string, p2: string, d: Option<string>)
    requires RenderPrompt(GenerateCodeParams(p1, d)) == RenderPrompt(GenerateCodeParams(p2, d))
    ensures p1 == p2
  {
    RenderDeterminesPrompt(Instruction, p1, p2, d);
  }

  /** The deployment line is "The user prefers to deploy with: X" exactly when the preference
      is a non-empty string X; otherwise the line is empty and the instruction is the one
      rendered with no preference at all. */
  lemma DeploymentLine(p: string, d: Option<string>)
    ensures DeployLineStart(Instruction, p) <= |RenderPrompt(GenerateCodeParams(p, d))|
    ensures Truthy(d) ==>
      RenderPrompt(GenerateCodeParams(p, d))[DeployLineStart(Instruction, p)..] == DeployLead + d.value + PromptTail
    ensures !Truthy(d) ==>
      RenderPrompt(GenerateCodeParams(p, d))[DeployLineStart(Instruction, p)..] == PromptTail
    ensures !Truthy(d) ==> RenderPrompt(GenerateCodeParams(p, d)) == RenderPrompt(GenerateCodeParams(p, None))
  {
    RenderDeploymentLine(Instruction, p, d);
  }

  /** The instruction records a truthy preference faithfully. */
  lemma RenderPromptDeterminesPreference(p: string, d1: Option<string>, d2: Option<string>)
    requires RenderPrompt(GenerateCodeParams(p, d1)) == RenderPrompt(GenerateCodeParams(p, d2))
    ensures Truthy(d1) <==> Truthy(d2)
    ensures Truthy(d1) ==> d1 == d2
  {
    RenderDeterminesPreference(Instruction, p, d1, d2);
  }

  // ---------------------------------------------------------------------------
  // Fence extraction: text.match(/```json\n([\s\S]*?)\n```/)
  // ---------------------------------------------------------------------------

  const Opener := "```json\n"
  const Closer := "\n```"

  /** The regular expression matches with its opener at `i` and its closer at `k`. */
  ghost predicate FenceAt(t: string, i: int, k: int) {
    OccursAt(t, Opener, i) && i + |Opener| <= k && OccursAt(t, Closer, k)
  }

  /** Of all matches, (i, k) is the one a backtracking matcher reports: the leftmost
      opener, and for it the nearest closer (the lazy `*?`). */
  ghost predicate FirstFence(t: string, i: int, k: int) {
    FenceAt(t, i, k) && forall i', k' :: FenceAt(t, i', k') ==> i < i' || (i == i' && k <= k')
  }

  /** The candidate JSON text: the interior of the first fenced block, or the whole reply. */
  function ExtractCandidate(t: string): (r: string)
    ensures forall i, k :: FirstFence(t, i, k) ==> r == t[i + |Opener|..k]
    ensures (forall i, k :: !FenceAt(t, i, k)) ==> r == t
    ensures (exists i, k :: FenceAt(t, i, k)) ==> exists i, k :: FirstFence(t, i, k)
  {
    match IndexFrom(t, Opener, 0)
    case None => t
    case Some(i) =>
      match IndexFrom(t, Closer, i + |Opener|)
      case None =>
        assert forall i', k' :: !FenceAt(t, i', k');
        t
      case Some(k) =>
        assert FirstFence(t, i, k);
        FirstFenceUnique(t, i, k);
        t[i + |Opener|..k]
  }

  lemma FirstFenceUnique(t: string, i: int, k: int)
    requires FirstFence(t, i, k)
    ensures forall i', k' :: FirstFence(t, i', k') ==> i' == i && k' == k
  {
  }

  /** Wrapping a closer-free JSON text in a json fence does not change the candidate: the
      fenced reply and the bare reply both yield the text itself. */
  lemma FenceRoundTrip(j: string)
    requires forall k :: !OccursAt(j, Closer, k)
    ensures ExtractCandidate(Opener + j + Closer) == j
    ensures ExtractCandidate(j) == j
  {
    var t := Opener + j + Closer;
    var e := |Opener| + |j|;
    assert t[e..e + |Closer|] == Closer;
    assert FenceAt(t, 0, e);
    forall k | |Opener| <= k < e
      ensures !OccursAt(t, Closer, k)
    {
      if k + |Closer| <= e {
        assert t[k..k + |Closer|] == j[k - |Opener|..k - |Opener| + |Closer|];
        assert !OccursAt(j, Closer, k - |Opener|);
      } else {
        assert t[k..k + |Closer|][e - k] == t[e] == '\n';
      }
    }
    var c := ExtractCandidate(t);
    var i, k :| FirstFence(t, i, k);
    assert i == 0 && k == e;
    assert t[|Opener|..e] == j;
    assert forall i', k' :: !FenceAt(j, i', k');
  }

  /** A tag line ending in CRLF is not recognised. */
  lemma CrlfFenceIsNotRecognised(t: string)
    requires t == "```json\r\n{}\r\n```"
    ensures ExtractCandidate(t) == t
  {
    forall k | 0 <= k
      ensures !OccursAt(t, Opener, k)
    {
      if k + |Opener| <= |t| {
        assert t[k..k + |Opener|][3] == t[k + 3];
        assert t[k..k + |Opener|][7] == t[k + 7];
      }
    }
  }

  lemma UpperCaseFenceIsNotRecognised(t: string)
    requires t == "```JSON\n{}\n```"
    ensures ExtractCandidate(t) == t
  {
    NoLowerCaseJ(t);
  }

  lemma NoLowerCaseJ(t: string)
    requires t == "```JSON\n{}\n```"
    ensures forall k :: !OccursAt(t, Opener, k)
  {
    forall k | 0 <= k
      ensures !OccursAt(t, Opener, k)
    {
      if k + |Opener| <= |t| {
        assert t[k..k + |Opener|][3] == t[k + 3];
      }
    }
  }

  // ---------------------------------------------------------------------------
  // Repair: s.trim().replace(/,\s*}/g, '}').replace(/,\s*]/g, ']')
  // ---------------------------------------------------------------------------

  predicate IsCloser(c: char) {
    c == '}' || c == ']'
  }

  /** The index of the first non-whitespace character of `s` at or after `i`, or `|s|`. */
  function SkipWs(s: string, i: nat): (j: nat)
    requires i <= |s|
    ensures i <= j <= |s|
    ensures forall m :: i <= m < j ==> IsWs(s[m])
    ensures j < |s| ==> !IsWs(s[j])
    decreases |s| - i
  {
    if i < |s| && IsWs(s[i]) then SkipWs(s, i + 1) else i
  }

  /** `/,\s*c/` matches `s[i..k+1]`: a comma, whitespace only, then the closing character. */
  ghost predicate DanglingAt(s: string, i: int, k: int, close: char) {
    && 0 <= i < k < |s| && s[i] == ',' && s[k] == close
    && forall m :: i < m < k ==> IsWs(s[m])
  }

  ghost predicate NoDangling(s: string, close: char) {
    forall i, k :: !DanglingAt(s, i, k, close)
  }

  /** One global left-to-right replacement of `/,\s*c/` by `c`: a match at the front is
      replaced and the search resumes after it; otherwise the front character is kept. */
  function SweepBefore(s: string, close: char): (r: string)
    ensures |r| <= |s|
    decreases |s|
  {
    if s == [] then []
    else
      var j := SkipWs(s, 1);
      if s[0] == ',' && j < |s| && s[j] == close then
        [close] + SweepBefore(s[j + 1..], close)
      else
        [s[0]] + SweepBefore(s[1..], close)
  }

  /** The text handed to JSON.parse for a candidate; never longer than the candidate. */
  function Repair(s: string): (r: string)
    ensures |r| <= |s|
  {
    SweepBefore(SweepBefore(Trim(s), '}'), ']')
  }

  /** Whether the regular expression matches at index 0 is what the sweep tests there. */
  lemma MatchAtStart(s: string, close: char)
    requires IsCloser(close) && s != []
    ensures (exists k :: DanglingAt(s, 0, k, close)) <==>
            (s[0] == ',' && SkipWs(s, 1) < |s| && s[SkipWs(s, 1)] == close)
  {
    var j := SkipWs(s, 1);
    forall k | DanglingAt(s, 0, k, close)
      ensures k == j
    {
    }
    if s[0] == ',' && j < |s| && s[j] == close {
      assert DanglingAt(s, 0, j, close);
    }
  }

  /** A match at `i >= 1` is a match at `i - 1` in the tail. */
  lemma DanglingInTail(s: string, i: int, k: int, close: char)
    requires |s| > 0 && 1 <= i
    ensures DanglingAt(s, i, k, close) <==> DanglingAt(s[1..], i - 1, k - 1, close)
  {
    if DanglingAt(s[1..], i - 1, k - 1, close) {
      forall m | i < m < k
        ensures IsWs(s[m])
      {
        assert s[m] == s[1..][m - 1];
      }
    }
  }

  /** Without a match at index 0, the matches of `s` are those of its tail. */
  lemma NoDanglingInTail(s: string, close: char)
    requires s != []
    requires forall k :: !DanglingAt(s, 0, k, close)
    ensures NoDangling(s, close) <==> NoDangling(s[1..], close)
  {
    if NoDangling(s, close) {
      forall i, k
        ensures !DanglingAt(s[1..], i, k, close)
      {
        if 0 <= i {
          DanglingInTail(s, i + 1, k + 1, close);
        }
      }
    } else {
      var i, k :| DanglingAt(s, i, k, close);
      DanglingInTail(s, i, k, close);
    }
  }

  /** The sweep changes its input exactly when `/,\s*c/` matches somewhere in it, and then
      it strictly shortens it. */
  lemma {:induction false} SweepChangesOnlyDangling(s: string, close: char)
    requires IsCloser(close)
    ensures NoDangling(s, close) ==> SweepBefore(s, close) == s
    ensures !NoDangling(s, close) ==> |SweepBefore(s, close)| < |s|
    decreases |s|
  {
    if s != [] {
      MatchAtStart(s, close);
      var j := SkipWs(s, 1);
      if s[0] == ',' && j < |s| && s[j] == close {
        assert !NoDangling(s, close);
      } else {
        NoDanglingInTail(s, close);
        SweepChangesOnlyDangling(s[1..], close);
        assert s == [s[0]] + s[1..];
      }
    }
  }

  // The sweep as an index filter: a character survives exactly when no match covers it.

  /** Position `m` lies in a match of `/,\s*c/` before its closing character, so the
      replacement deletes it. */
  ghost predicate InMatch(s: string, m: int, close: char) {
    exists i, k :: DanglingAt(s, i, k, close) && i <= m < k
  }

  /** The characters of `s[lo..]` that no match covers, in order. */
  ghost function Kept(s: string, close: char, lo: nat): string
    requires lo <= |s|
    decreases |s| - lo
  {
    if lo == |s| then []
    else (if InMatch(s, lo, close) then [] else [s[lo]]) + Kept(s, close, lo + 1)
  }

  /** The characters of `s` that no match of `/,\s*c/` covers, in order. */
  ghost function MatchFilter(s: string, close: char): string {
    Kept(s, close, 0)
  }

  /** A match at the front ends at the first non-whitespace character after the comma. */
  lemma MatchFromStart(s: string, k: int, close: char)
    requires IsCloser(close) && DanglingAt(s, 0, k, close)
    ensures k == SkipWs(s, 1)
  {
  }

  /** A match at or after `d` is a match in `s[d..]`, shifted by `d`. */
  lemma DanglingInSuffix(s: string, d: nat, i: int, k: int, close: char)
    requires d <= |s| && d <= i
    ensures DanglingAt(s, i, k, close) <==> DanglingAt(s[d..], i - d, k - d, close)
  {
    if DanglingAt(s[d..], i - d, k - d, close) {
      forall m | i < m < k
        ensures IsWs(s[m])
      {
        assert s[m] == s[d..][m - d];
      }
    }
  }

  /** When every match starting before `d` also ends before it, the positions from `d` on
      are covered in `s` exactly when they are covered in `s[d..]`. */
  lemma InMatchInSuffix(s: string, d: nat, m: int, close: char)
    requires d <= m && d <= |s|
    requires forall i, k :: DanglingAt(s, i, k, close) && i < d ==> k < d
    ensures InMatch(s, m, close) <==> InMatch(s[d..], m - d, close)
  {
    if InMatch(s, m, close) {
      var i, k :| DanglingAt(s, i, k, close) && i <= m < k;
      DanglingInSuffix(s, d, i, k, close);
    }
    if InMatch(s[d..], m - d, close) {
      var i, k :| DanglingAt(s[d..], i, k, close) && i <= m - d < k;
      DanglingInSuffix(s, d, i + d, k + d, close);
    }
  }

  lemma {:induction false} KeptInSuffix(s: string, d: nat, n: nat, close: char)
    requires d <= n <= |s|
    requires forall i, k :: DanglingAt(s, i, k, close) && i < d ==> k < d
    ensures Kept(s, close, n) == Kept(s[d..], close, n - d)
    decreases |s| - n
  {
    if n < |s| {
      var t := s[d..];
      InMatchInSuffix(s, d, n, close);
      KeptInSuffix(s, d, n + 1, close);
      assert t[n - d] == s[n];
      assert Kept(t, close, n - d) == (if InMatch(t, n - d, close) then [] else [t[n - d]]) + Kept(t, close, n + 1 - d);
    }
  }

  lemma {:induction false} KeptSkipsCovered(s: string, close: char, lo: nat, j: nat)
    requires lo <= j <= |s|
    requires forall m :: lo <= m < j ==> InMatch(s, m, close)
    ensures Kept(s, close, lo) == Kept(s, close, j)
    decreases j - lo
  {
    if lo < j {
      assert InMatch(s, lo, close);
      assert Kept(s, close, lo) == Kept(s, close, lo + 1);
      KeptSkipsCovered(s, close, lo + 1, j);
    }
  }

  /** With a match at the front ending at `j`, it is the only match starting at or before
      `j`. */
  lemma OnlyFrontMatch(s: string, j: nat, close: char)
    requires IsCloser(close) && s != [] && s[0] == ','
    requires j == SkipWs(s, 1) && j < |s| && s[j] == close
    ensures forall i, k :: DanglingAt(s, i, k, close) && i <= j ==> i == 0 && k == j
  {
    forall i, k | DanglingAt(s, i, k, close) && i <= j
      ensures i == 0 && k == j
    {
      if i == 0 {
        MatchFromStart(s, k, close);
      }
    }
  }

  /** A match at the front: the filter drops it up to its closing character and goes on
      after it. */
  lemma FilterAtMatch(s: string, j: nat, close: char)
    requires IsCloser(close) && s != [] && s[0] == ','
    requires j == SkipWs(s, 1) && j < |s| && s[j] == close
    ensures MatchFilter(s, close) == [close] + MatchFilter(s[j + 1..], close)
  {
    OnlyFrontMatch(s, j, close);
    assert DanglingAt(s, 0, j, close);
    forall m | 0 <= m < j
      ensures InMatch(s, m, close)
    {
    }
    KeptSkipsCovered(s, close, 0, j);
    assert !InMatch(s, j, close);
    assert Kept(s, close, j) == [close] + Kept(s, close, j + 1);
    KeptInSuffix(s, j + 1, j + 1, close);
  }

  /** No match at the front: the filter keeps the front character. */
  lemma FilterAtOther(s: string, close: char)
    requires s != [] && forall k :: !DanglingAt(s, 0, k, close)
    ensures MatchFilter(s, close) == [s[0]] + MatchFilter(s[1..], close)
  {
    assert !InMatch(s, 0, close);
    KeptInSuffix(s, 1, 1, close);
  }

  /** The sweep is the filter: it deletes exactly the characters some match covers (the
      comma and the whitespace before the closing character) and keeps every other one,
      in order. Matches cannot overlap, since only whitespace lies inside one. */
  lemma {:induction false} SweepIsMatchFilter(s: string, close: char)
    requires IsCloser(close)
    ensures SweepBefore(s, close) == MatchFilter(s, close)
    decreases |s|
  {
    if s != [] {
      MatchAtStart(s, close);
      var j := SkipWs(s, 1);
      if s[0] == ',' && j < |s| && s[j] == close {
        FilterAtMatch(s, j, close);
        SweepIsMatchFilter(s[j + 1..], close);
      } else {
        FilterAtOther(s, close);
        SweepIsMatchFilter(s[1..], close);
      }
    }
  }

  /** Characters the repair may delete. */
  predicate Deletable(c: char) {
    c == ',' || IsWs(c)
  }

  /** The characters other than commas and whitespace, in order. */
  function Skeleton(s: string): string {
    if s == [] then []
    else (if Deletable(s[0]) then [] else [s[0]]) + Skeleton(s[1..])
  }

  lemma SkeletonCons(c: char, s: string)
    ensures Skeleton([c] + s) == (if Deletable(c) then [] else [c]) + Skeleton(s)
  {
    assert ([c] + s)[1..] == s;
  }

  lemma {:induction false} SkeletonConcat(a: string, b: string)
    ensures Skeleton(a + b) == Skeleton(a) + Skeleton(b)
    decreases |a|
  {
    if a == [] {
      assert a + b == b;
    } else {
      assert a + b == [a[0]] + (a[1..] + b);
      SkeletonCons(a[0], a[1..] + b);
      SkeletonConcat(a[1..], b);
    }
  }

  /** Whitespace and commas leave nothing in the skeleton. */
  lemma {:induction false} SkeletonOfDeletable(s: string, i: nat, j: nat)
    requires i <= j <= |s|
    requires forall m :: i <= m < j ==> Deletable(s[m])
    ensures Skeleton(s[i..j]) == []
    decreases j - i
  {
    if i < j {
      assert s[i..j][1..] == s[i + 1..j];
      SkeletonOfDeletable(s, i + 1, j);
    }
  }

  /** The sweep deletes only commas and whitespace: every other character survives, in
      order. */
  lemma {:induction false} SweepKeepsSkeleton(s: string, close: char)
    requires IsCloser(close)
    ensures Skeleton(SweepBefore(s, close)) == Skeleton(s)
    decreases |s|
  {
    if s != [] {
      var j := SkipWs(s, 1);
      if s[0] == ',' && j < |s| && s[j] == close {
        SweepKeepsSkeleton(s[j + 1..], close);
        SkeletonOfMatch(s, j, close, SweepBefore(s[j + 1..], close));
      } else {
        SweepKeepsSkeleton(s[1..], close);
        SkeletonCons(s[0], SweepBefore(s[1..], close));
        SkeletonCons(s[0], s[1..]);
        assert s == [s[0]] + s[1..];
      }
    }
  }

  /** Replacing a match `s[..j+1]` by the closing character keeps the skeleton. */
  lemma SkeletonOfMatch(s: string, j: nat, close: char, y: string)
    requires IsCloser(close) && 0 < j < |s| && s[0] == ',' && s[j] == close
    requires forall m :: 1 <= m < j ==> IsWs(s[m])
    requires Skeleton(y) == Skeleton(s[j + 1..])
    ensures Skeleton([close] + y) == Skeleton(s)
  {
    SkeletonOfDeletable(s, 0, j);
    assert s == s[..j] + ([close] + s[j + 1..]);
    assert s[0..j] == s[..j];
    SkeletonConcat(s[..j], [close] + s[j + 1..]);
    SkeletonCons(close, s[j + 1..]);
    SkeletonCons(close, y);
  }

  /** Trimming deletes only whitespace. */
  lemma TrimKeepsSkeleton(s: string)
    ensures Skeleton(Trim(s)) == Skeleton(s)
  {
    var t := Trim(s);
    var i, j :| TrimmedAt(s, t, i, j);
    SkeletonOfSplit(s, i, j);
  }

  /** Cutting whitespace off both ends of `s` leaves its skeleton as it was. */
  lemma SkeletonOfSplit(s: string, i: nat, j: nat)
    requires i <= j <= |s| && AllWs(s[..i]) && AllWs(s[j..])
    ensures Skeleton(s[i..j]) == Skeleton(s)
  {
    assert s == s[..i] + s[i..j] + s[j..];
    SkeletonConcat(s[..i] + s[i..j], s[j..]);
    SkeletonConcat(s[..i], s[i..j]);
    SkeletonOfWs(s[..i]);
    SkeletonOfWs(s[j..]);
  }

  lemma SkeletonOfWs(a: string)
    requires AllWs(a)
    ensures Skeleton(a) == []
  {
    SkeletonOfDeletable(a, 0, |a|);
    assert a[0..|a|] == a;
  }

  /** The repair is trim followed by the two filters: of the trimmed text it deletes exactly
      the characters a `,\s*}` match covers, then of what is left exactly those a `,\s*]`
      match covers, and keeps every other character, commas and whitespace included, in
      order. So it never lengthens the text, keeps every character other than commas and
      whitespace, and changes the trimmed text exactly when some match exists. */
  lemma RepairDeletesOnlyDanglingCommas(s: string)
    ensures Repair(s) == MatchFilter(MatchFilter(Trim(s), '}'), ']')
    ensures |Repair(s)| <= |Trim(s)|
    ensures Skeleton(Repair(s)) == Skeleton(s)
    ensures Repair(s) == Trim(s) <==> NoDangling(Trim(s), '}') && NoDangling(Trim(s), ']')
  {
    SweepIsMatchFilter(Trim(s), '}');
    SweepIsMatchFilter(SweepBefore(Trim(s), '}'), ']');
    var t := Trim(s);
    var a := SweepBefore(t, '}');
    TrimKeepsSkeleton(s);
    SweepKeepsSkeleton(t, '}');
    SweepKeepsSkeleton(a, ']');
    SweepChangesOnlyDangling(t, '}');
    SweepChangesOnlyDangling(a, ']');
  }

  /** A candidate without commas is only trimmed. */
  lemma RepairWithoutCommasOnlyTrims(s: string)
    requires ',' !in s
    ensures Repair(s) == Trim(s)
  {
    var t := Trim(s);
    var i, j :| TrimmedAt(s, t, i, j);
    forall k | 0 <= k < |t|
      ensures t[k] != ','
    {
      assert t[k] == s[i + k];
    }
    CommaFreeNoDangling(t, '}');
    CommaFreeNoDangling(t, ']');
    RepairDeletesOnlyDanglingCommas(s);
  }

  lemma CommaFreeNoDangling(t: string, close: char)
    requires forall k :: 0 <= k < |t| ==> t[k] != ','
    ensures NoDangling(t, close)
  {
  }

  // Step lemmas for replies built from known pieces.

  /** Text with no whitespace at either end is its own trim. */
  lemma TrimOfSolidEnds(s: string)
    requires s != [] && !IsWs(s[0]) && !IsWs(s[|s| - 1])
    ensures Trim(s) == s
  {
    assert TrimStart(s) == s;
    assert TrimEnd(s) == s;
  }

  /** A comma-free prefix passes through the sweep unchanged. */
  lemma {:induction false} SweepCommaFree(a: string, b: string, close: char)
    requires ',' !in a
    ensures SweepBefore(a + b, close) == a + SweepBefore(b, close)
    decreases |a|
  {
    if a == [] {
      assert a + b == b;
    } else {
      assert (a + b)[0] == a[0] != ',';
      assert (a + b)[1..] == a[1..] + b;
      assert ',' !in a[1..];
      SweepKeepsFront(a + b, close);
      SweepCommaFree(a[1..], b, close);
      assert a == [a[0]] + a[1..];
    }
  }

  /** A front character other than a comma cannot start the match and is kept. */
  lemma SweepKeepsFront(s: string, close: char)
    requires s != [] && s[0] != ','
    ensures SweepBefore(s, close) == [s[0]] + SweepBefore(s[1..], close)
  {
  }

  /** A comma followed by a character that cannot start the match stays. */
  lemma SweepKeepsComma(b: string, close: char)
    requires b != [] && !IsWs(b[0]) && b[0] != close
    ensures SweepBefore([','] + b, close) == [','] + SweepBefore(b, close)
  {
    var s := [','] + b;
    assert s[1] == b[0];
    assert SkipWs(s, 1) == 1;
    assert s[1..] == b;
  }

  /** A comma followed by whitespace and the closing character is deleted. */
  lemma SweepDropsComma(w: string, b: string, close: char)
    requires IsCloser(close) && forall m :: 0 <= m < |w| ==> IsWs(w[m])
    ensures SweepBefore([','] + w + [close] + b, close) == [close] + SweepBefore(b, close)
  {
    var s := [','] + w + [close] + b;
    var j := |w| + 1;
    assert s[j] == close;
    forall m | 1 <= m < j
      ensures IsWs(s[m])
    {
      assert s[m] == w[m - 1];
    }
    assert SkipWs(s, 1) == j;
    assert s[j + 1..] == b;
  }

  /** Comma-free text, a comma before a quote, and the rest: the comma stays. */
  lemma SweepKeepsQuotedComma(a: string, b: string, close: char)
    requires IsCloser(close) && ',' !in a && b != [] && b[0] == '"'
    ensures SweepBefore(a + ([','] + b), close) == a + ([','] + SweepBefore(b, close))
  {
    SweepCommaFree(a, [','] + b, close);
    SweepKeepsComma(b, close);
  }

  /** Before `}` nothing in comma-free text around ",]" matches. */
  lemma SweepBraceKeepsBracketComma(a: string, b: string)
    requires ',' !in a && ',' !in b
    ensures SweepBefore(a + ",]" + b, '}') == a + ",]" + b
  {
    var rest := "]" + b;
    assert a + ",]" + b == a + ([','] + rest);
    SweepCommaFree(a, [','] + rest, '}');
    SweepKeepsComma(rest, '}');
    assert ',' !in rest;
    SweepCommaFree(rest, [], '}');
    assert rest + [] == rest;
  }

  /** Before `]` the comma of ",]" goes, and nothing else in the comma-free text around it
      changes. */
  lemma SweepBracketDropsComma(a: string, b: string)
    requires ',' !in a && ',' !in b
    ensures SweepBefore(a + ",]" + b, ']') == a + "]" + b
  {
    var m := [','] + [] + [']'] + b;
    assert a + ",]" + b == a + m;
    SweepCommaFree(a, m, ']');
    SweepDropsComma([], b, ']');
    SweepCommaFree(b, [], ']');
    assert b + [] == b;
    assert a + ([']'] + b) == a + "]" + b;
  }

  /** Comma-free text on both sides of ",]": the comma before `]` goes, nothing else
      changes. */
  lemma RepairDropsCommaBeforeBracket(a: string, b: string)
    requires ',' !in a && ',' !in b
    requires a != [] && !IsWs(a[0]) && b != [] && !IsWs(b[|b| - 1])
    ensures Repair(a + ",]" + b) == a + "]" + b
  {
    var s := a + ",]" + b;
    assert s[0] == a[0] && s[|s| - 1] == b[|b| - 1];
    TrimOfSolidEnds(s);
    SweepBraceKeepsBracketComma(a, b);
    SweepBracketDropsComma(a, b);
  }

  /** The repair does not know about string literals: a trailing comma inside a string
      value, as in `{"<key>":"[<v>,]"}`, is deleted too. */
  lemma RepairRewritesStringContents(key: string, v: string)
    requires ',' !in key && ',' !in v
    ensures Repair("{\"" + key + "\":\"[" + v + ",]\"}") == "{\"" + key + "\":\"[" + v + "]\"}"
  {
    var a := "{\"" + key + "\":\"[" + v;
    var b := "\"}";
    assert a[0] == '{';
    assert "{\"" + key + "\":\"[" + v + ",]\"}" == a + ",]" + b;
    assert "{\"" + key + "\":\"[" + v + "]\"}" == a + "]" + b;
    RepairDropsCommaBeforeBracket(a, b);
  }

  /** The sweep is not repeated: of ",,}" one comma stays, and the result still has a
      comma before `}`. */
  lemma RepairIsASingleSweep(s: string)
    requires s == ",,}"
    ensures Repair(s) == ",}"
    ensures !NoDangling(Repair(s), '}')
  {
    TrimOfSolidEnds(s);
    assert s == [','] + ",}";
    SweepKeepsComma(",}", '}');
    assert ",}" == [','] + [] + ['}'] + [];
    SweepDropsComma([], [], '}');
    assert SweepBefore(s, '}') == ",}";
    assert ",}" == [','] + "}";
    SweepKeepsComma("}", ']');
    SweepCommaFree("}", [], ']');
    assert "}" + [] == "}";
    assert DanglingAt(",}", 0, 1, '}');
  }

  // ---------------------------------------------------------------------------
  // generateCode
  // ---------------------------------------------------------------------------

  /** The text handed to `JSON.parse` for a model reply: the repaired interior of the first
      fenced block, or the whole reply repaired when no fence matches. */
  function ParsedText(reply: string): (json: string)
    ensures forall i, k :: FirstFence(reply, i, k) ==> json == Repair(reply[i + |Opener|..k])
    ensures (forall i, k :: !FenceAt(reply, i, k)) ==> json == Repair(reply)
  {
    Repair(ExtractCandidate(reply))
  }

  /** `generateCode`: a model error propagates unchanged; otherwise the parse of the
      repaired candidate is the result, unchecked, and a parse failure becomes the fixed
      message. */
  function GenerateCode(params: GenerateCodeParams, model: string -> ModelReply,
                        parse: string -> Option<GeneratedCode>): (r: Result<GeneratedCode, string>)
    ensures model(RenderPrompt(params)).ModelError? ==> r == Failure(model(RenderPrompt(params)).message)
    ensures model(RenderPrompt(params)).ReplyText? ==>
      var parsed := parse(ParsedText(model(RenderPrompt(params)).text));
      && (r.Success? <==> parsed.Some?)
      && (r.Success? ==> r.value == parsed.value)
      && (r.Failure? ==> r.error == ParseFailureMessage)
  {
    match model(RenderPrompt(params))
    case ModelError(m) => Failure(m)
    case ReplyText(text) =>
      match parse(ParsedText(text))
      case None => Failure(ParseFailureMessage)
      case Some(code) => Success(code)
  }

  /** A reply that wraps closer-free JSON text in a json fence generates the same result as
      a reply made of that text alone, whatever the parser. */
  lemma FencedAndBareRepliesAgree(params: GenerateCodeParams, j: string,
                                  fenced: string -> ModelReply, bare: string -> ModelReply,
                                  parse: string -> Option<GeneratedCode>)
    requires forall k :: !OccursAt(j, Closer, k)
    requires fenced(RenderPrompt(params)) == ReplyText(Opener + j + Closer)
    requires bare(RenderPrompt(params)) == ReplyText(j)
    ensures GenerateCode(params, fenced, parse) == GenerateCode(params, bare, parse)
  {
    FenceRoundTrip(j);
    assert ParsedText(Opener + j + Closer) == ParsedText(j);
  }

  /** Text without a backtick holds no closing fence. */
  lemma NoBacktickNoCloser(j: string)
    requires '`' !in j
    ensures forall k :: !OccursAt(j, Closer, k)
  {
    forall k | 0 <= k && k + |Closer| <= |j|
      ensures !OccursAt(j, Closer, k)
    {
      assert j[k..k + |Closer|][1] == j[k + 1];
      assert j[k + 1] in j;
    }
  }

  /** Inside comma-free fields that start with a quote, the commas between fields stay. */
  lemma SweepKeepsFieldCommas(p1: string, p2: string, t: string, close: char)
    requires IsCloser(close) && ',' !in p1 && ',' !in p2
    requires p2 != [] && p2[0] == '"' && t != [] && t[0] == '"'
    ensures SweepBefore(p1 + ([','] + (p2 + ([','] + t))), close)
         == p1 + ([','] + (p2 + ([','] + SweepBefore(t, close))))
  {
    SweepKeepsQuotedComma(p1, p2 + ([','] + t), close);
    SweepKeepsQuotedComma(p2, t, close);
  }

  /** An object whose last field is a one-element array followed by a trailing comma,
      with comma-free fields `p1`, `p2`, `p3`. */
  function OneElementList(p1: string, p2: string, p3: string, close: string): string {
    p1 + ([','] + (p2 + ([','] + (p3 + close + "}"))))
  }

  lemma SweepsOfOneElementList(p1: string, p2: string, p3: string)
    requires ',' !in p1 && ',' !in p2 && ',' !in p3
    requires p2 != [] && p2[0] == '"' && p3 != [] && p3[0] == '"'
    ensures SweepBefore(OneElementList(p1, p2, p3, ",]"), '}') == OneElementList(p1, p2, p3, ",]")
    ensures SweepBefore(OneElementList(p1, p2, p3, ",]"), ']') == OneElementList(p1, p2, p3, "]")
  {
    var t := p3 + ",]" + "}";
    SweepKeepsFieldCommas(p1, p2, t, '}');
    SweepBraceKeepsBracketComma(p3, "}");
    SweepKeepsFieldCommas(p1, p2, t, ']');
    SweepBracketDropsComma(p3, "}");
  }

  /** The repair removes exactly the trailing comma after the last array element. */
  lemma RepairOfOneElementList(p1: string, p2: string, p3: string)
    requires ',' !in p1 && ',' !in p2 && ',' !in p3
    requires p1 != [] && !IsWs(p1[0])
    requires p2 != [] && p2[0] == '"' && p3 != [] && p3[0] == '"'
    ensures Repair(OneElementList(p1, p2, p3, ",]")) == OneElementList(p1, p2, p3, "]")
  {
    var s := OneElementList(p1, p2, p3, ",]");
    assert s[0] == p1[0] && s[|s| - 1] == '}';
    TrimOfSolidEnds(s);
    SweepsOfOneElementList(p1, p2, p3);
  }

  /** The reply object `{"repositoryName":"<name>","files":[{"path":"<path>",
      "content":"<content>"}<trailing>]}`, cut at its two field commas. */
  function OneFileJson(name: string, path: string, content: string, trailing: string): string {
    OneElementList("{\"repositoryName\":\"" + name + "\"", "\"files\":[{\"path\":\"" + path + "\"",
                   "\"content\":\"" + content + "\"}", trailing + "]")
  }

  lemma OneFileJsonHasNoBacktick(name: string, path: string, content: string)
    requires '`' !in name && '`' !in path && '`' !in content
    ensures '`' !in OneFileJson(name, path, content, ",")
  {
  }

  /** The trailing comma after the one file object is the only thing the repair removes. */
  lemma RepairOfOneFileJson(name: string, path: string, content: string)
    requires ',' !in name && ',' !in path && ',' !in content
    ensures Repair(OneFileJson(name, path, content, ",")) == OneFileJson(name, path, content, "")
  {
    var p1 := "{\"repositoryName\":\"" + name + "\"";
    var p2 := "\"files\":[{\"path\":\"" + path + "\"";
    var p3 := "\"content\":\"" + content + "\"}";
    assert "," + "]" == ",]" && "" + "]" == "]";
    RepairOfOneElementList(p1, p2, p3);
  }

  /** A fenced reply whose file list ends in a trailing comma reaches the parser as strict
      JSON, for field values without commas or backticks. */
  lemma TrailingCommaReplyReachesParserClean(name: string, path: string, content: string)
    requires ',' !in name && ',' !in path && ',' !in content
    requires '`' !in name && '`' !in path && '`' !in content
    ensures ParsedText(Opener + OneFileJson(name, path, content, ",") + Closer)
         == OneFileJson(name, path, content, "")
  {
    var j := OneFileJson(name, path, content, ",");
    OneFileJsonHasNoBacktick(name, path, content);
    NoBacktickNoCloser(j);
    FenceRoundTrip(j);
    RepairOfOneFileJson(name, path, content);
  }
}
