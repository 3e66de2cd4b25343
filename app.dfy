/** Model of the `/match` handler `match()` (backend/app.py): a chain of
    first-failure checks on the JSON request, a loop that collects the resume
    names and contents in input order, the call to `match_resumes`, and the
    mapping of its result or exception to an HTTP status and JSON body. */
module App {
  import opened Preprocess
  import opened Matcher

  /** A JSON value as Flask's `get_json` hands it to the handler. */
  datatype Json =
    | Null
    | Bool(b: bool)
    | Int(i: int)
    | Float(r: real)
    | Str(s: string)
    | Arr(items: seq<Json>)
    | Obj(fields: map<string, Json>)

  /** The parsed body of a request: JSON `null`, or a JSON object. */
  datatype Payload = JsonNull | JsonObject(fields: map<string, Json>)

  /** What the handler reads from the request: whether its content type is
      JSON (`request.is_json`) and its parsed body. */
  datatype Request = Request(isJson: bool, payload: Payload)

  datatype ResponseBody =
    | ErrorBody(error: string)
    | ResultsBody(results: seq<MatchResult>, totalMatched: nat)

  datatype Response = Response(status: nat, body: ResponseBody)

  const NotJson: string := "Content-Type must be application/json"
  const BodyRequired: string := "Request body is required"
  const MissingResumes: string := "Missing required field: 'resumes'"
  const MissingJob: string := "Missing required field: 'job_description'"
  const ResumesNotList: string := "'resumes' must be a list"
  const ResumesEmpty: string := "'resumes' list cannot be empty"
  const JobNotText: string := "'job_description' must be a non-empty string"
  const ServerError: string := "An internal server error occurred"

  // ---------------------------------------------------------------------
  // Python string helpers

  /** The characters Python's `str.isspace` accepts, which `str.strip()`
      removes from both ends. */
  predicate IsSpace(c: char) {
    ('\t' <= c <= '\r') || ('\U{1c}' <= c <= '\U{1f}') || c == ' ' || c == '\U{85}' || c == '\U{a0}'
    || c == '\U{1680}' || ('\U{2000}' <= c <= '\U{200a}') || c == '\U{2028}' || c == '\U{2029}'
    || c == '\U{202f}' || c == '\U{205f}' || c == '\U{3000}'
  }

  function TrimLeft(s: string): string
    decreases |s|
  {
    if s != [] && IsSpace(s[0]) then TrimLeft(s[1..]) else s
  }

  function TrimRight(s: string): string
    decreases |s|
  {
    if s != [] && IsSpace(s[|s| - 1]) then TrimRight(s[..|s| - 1]) else s
  }

  /** Python's `s.strip()`. */
  function Strip(s: string): (r: string)
    ensures exists k :: 0 <= k <= |s| && StrippedAt(s, r, k)
    ensures r != [] ==> !IsSpace(r[0]) && !IsSpace(r[|r| - 1])
  {
    var t := TrimLeft(s);
    TrimLeftSuffix(s);
    TrimRightPrefix(t);
    var r := TrimRight(t);
    var k := |s| - |t|;
    assert s[k..k + |r|] == r && s[k + |r|..] == t[|r|..];
    assert StrippedAt(s, r, k);
    r
  }

  /** `r` is the piece of `s` at index `k`, and everything before and after
      it is whitespace. */
  predicate StrippedAt(s: string, r: string, k: nat) {
    k + |r| <= |s| && s[k..k + |r|] == r && IsBlank(s[..k]) && IsBlank(s[k + |r|..])
  }

  /** `TrimLeft` removes a whitespace prefix and leaves no leading
      whitespace. */
  lemma {:induction false} TrimLeftSuffix(s: string)
    ensures var t := TrimLeft(s);
            |t| <= |s| && t == s[|s| - |t|..] && IsBlank(s[..|s| - |t|]) && (t != [] ==> !IsSpace(t[0]))
    decreases |s|
  {
    if s != [] && IsSpace(s[0]) {
      TrimLeftSuffix(s[1..]);
      var n := |s| - |TrimLeft(s)|;
      assert forall i :: 1 <= i < n ==> s[..n][i] == s[1..][..n - 1][i - 1];
    }
  }

  /** `TrimRight` removes a whitespace suffix and leaves no trailing
      whitespace. */
  lemma {:induction false} TrimRightPrefix(s: string)
    ensures var t := TrimRight(s);
            |t| <= |s| && t == s[..|t|] && IsBlank(s[|t|..]) && (t != [] ==> !IsSpace(t[|t| - 1]))
    decreases |s|
  {
    if s != [] && IsSpace(s[|s| - 1]) {
      var m := |s| - 1;
      TrimRightPrefix(s[..m]);
      var n := |TrimRight(s)|;
      assert forall i :: 0 <= i < m - n ==> s[n..][i] == s[..m][n..][i];
    }
  }

  predicate IsBlank(s: string) {
    forall i :: 0 <= i < |s| ==> IsSpace(s[i])
  }

  /** `not s.strip()` holds exactly when every character of `s` is
      whitespace, the empty string included. */
  lemma StripEmptyIffBlank(s: string)
    ensures Strip(s) == "" <==> IsBlank(s)
  {
  }


  function DigitChar(d: nat): char
    requires d < 10
  {
    ('0' as int + d) as char
  }

  /** The decimal numeral of `n`, as an f-string renders an `int`. */
  function Decimal(n: nat): (d: string)
    ensures |d| >= 1
    ensures forall i :: 0 <= i < |d| ==> '0' <= d[i] <= '9'
    ensures d[0] == '0' <==> n == 0
    decreases n
  {
    if n < 10 then [DigitChar(n)] else Decimal(n / 10) + [DigitChar(n % 10)]
  }

  function DigitsValue(s: string): int
    decreases |s|
  {
    if s == [] then 0 else DigitsValue(s[..|s| - 1]) * 10 + (s[|s| - 1] as int - '0' as int)
  }

  /** Reading the numeral back gives the number: distinct indices give
      distinct messages. */
  lemma {:induction false} DecimalValue(n: nat)
    ensures DigitsValue(Decimal(n)) == n
    decreases n
  {
    if n >= 10 {
      DecimalValue(n / 10);
      var d := Decimal(n / 10) + [DigitChar(n % 10)];
      assert d[..|d| - 1] == Decimal(n / 10);
    } else {
      assert [DigitChar(n)][..0] == [];
    }
  }

  /** Python's `str(value)` for a JSON value: a string is itself, `None`,
      `True` and `False` have fixed spellings, an integer is its decimal
      numeral with a leading `-` when negative, and the rendering of floats,
      lists and dicts is left to `show`. */
  function PyStr(j: Json, show: Json -> string): string {
    match j
    case Str(s) => s
    case Null => "None"
    case Bool(b) => if b then "True" else "False"
    case Int(i) => if i < 0 then "-" + Decimal(-i) else Decimal(i)
    case _ => show(j)
  }

  /** `str()` of an integer reads back as that integer: a `-` exactly for a
      negative one, then the digits of its magnitude. */
  lemma PyStrInt(i: int, show: Json -> string)
    ensures var t := PyStr(Int(i), show);
            t != [] && (t[0] == '-' <==> i < 0) &&
            DigitsValue(if i < 0 then t[1..] else t) == (if i < 0 then -i else i)
  {
    if i < 0 {
      DecimalValue(-i);
      assert ("-" + Decimal(-i))[1..] == Decimal(-i);
    } else {
      DecimalValue(i);
    }
  }

  // ---------------------------------------------------------------------
  // The checks of lines 50-77

  /** Outcome of the top-level checks: a 400 message, or the resume list and
      the job description. */
  datatype Checked = Refused(message: string) | Accepted(resumes: seq<Json>, job: string)

  /** Lines 50-77: the first failing check decides the message. */
  function CheckRequest(req: Request): (c: Checked)
    ensures c.Accepted? ==> c.resumes != [] && !IsBlank(c.job)
  {
    if !req.isJson then Refused(NotJson)
    else if req.payload.JsonNull? || req.payload.fields == map[] then Refused(BodyRequired)
    else
      var data := req.payload.fields;
      if "resumes" !in data then Refused(MissingResumes)
      else if "job_description" !in data then Refused(MissingJob)
      else
        var resumes := data["resumes"];
        var job := data["job_description"];
        if !resumes.Arr? then Refused(ResumesNotList)
        else if |resumes.items| == 0 then Refused(ResumesEmpty)
        else if !job.Str? then Refused(JobNotText)
        else
          StripEmptyIffBlank(job.s);
          if Strip(job.s) == "" then Refused(JobNotText)
          else Accepted(resumes.items, job.s)
  }

  /** The seven top-level checks and their messages, each stated on its own,
      in the order the handler runs them. */
  function Check(req: Request, k: nat): bool
    requires k < 7
  {
    var data := if req.payload.JsonObject? then req.payload.fields else map[];
    match k
    case 0 => req.isJson
    case 1 => req.payload.JsonObject? && data != map[]
    case 2 => "resumes" in data
    case 3 => "job_description" in data
    case 4 => "resumes" in data && data["resumes"].Arr?
    case 5 => "resumes" in data && data["resumes"].Arr? && data["resumes"].items != []
    case 6 => "job_description" in data && data["job_description"].Str?
              && !IsBlank(data["job_description"].s)
  }

  function CheckMessage(k: nat): string
    requires k < 7
  {
    [NotJson, BodyRequired, MissingResumes, MissingJob, ResumesNotList, ResumesEmpty, JobNotText][k]
  }

  /** Only the first failing check is reported. */
  lemma FirstFailingCheck(req: Request, k: nat, nlp: Nlp, similarity: Similarity, show: Json -> string)
    requires k < 7 && !Check(req, k)
    requires forall j :: 0 <= j < k ==> Check(req, j)
    ensures CheckRequest(req) == Refused(CheckMessage(k))
    ensures Handle(req, nlp, similarity, show) == Response(400, ErrorBody(CheckMessage(k)))
  {
    assert Check(req, 0) || k == 0;
    if req.payload.JsonObject? && "job_description" in req.payload.fields
       && req.payload.fields["job_description"].Str? {
      StripEmptyIffBlank(req.payload.fields["job_description"].s);
    }
    if k > 0 {
      assert Check(req, 0);
    }
    if k > 1 {
      assert Check(req, 1);
    }
    if k > 2 {
      assert Check(req, 2);
    }
    if k > 3 {
      assert Check(req, 3);
    }
    if k > 4 {
      assert Check(req, 4);
    }
    if k > 5 {
      assert Check(req, 5);
    }
  }

  /** A request that passes every check is accepted with its resume list and
      its job description. */
  lemma AllChecksPass(req: Request)
    requires forall j :: 0 <= j < 7 ==> Check(req, j)
    ensures CheckRequest(req).Accepted?
    ensures CheckRequest(req).resumes == req.payload.fields["resumes"].items
    ensures CheckRequest(req).job == req.payload.fields["job_description"].s
  {
    assert Check(req, 0) && Check(req, 1) && Check(req, 2) && Check(req, 3);
    assert Check(req, 4) && Check(req, 5) && Check(req, 6);
    StripEmptyIffBlank(req.payload.fields["job_description"].s);
  }

  // ---------------------------------------------------------------------
  // The per-resume loop of lines 80-94

  /** What lines 84-91 find wrong with one resume entry, if anything. */
  datatype Problem = NoProblem | Found(message: string)

  /** The message lines 84-91 report for the resume at index `idx`, if any:
      "not an object" before a missing `name` before a missing `content`. */
  function ResumeProblem(idx: nat, resume: Json): (problem: Problem)
    ensures problem.NoProblem? <==> WellFormed(resume)
  {
    if !resume.Obj? then Found("Resume at index " + Decimal(idx) + " must be an object")
    else if "name" !in resume.fields then Found("Resume at index " + Decimal(idx) + " is missing 'name' field")
    else if "content" !in resume.fields then Found("Resume at index " + Decimal(idx) + " is missing 'content' field")
    else NoProblem
  }

  /** A resume entry the loop accepts: an object with `name` and `content`. */
  predicate WellFormed(resume: Json) {
    resume.Obj? && "name" in resume.fields && "content" in resume.fields
  }

  /** What the loop produces: the parallel `resume_names` and
      `resume_texts` lists, or the first offending resume's message. */
  datatype Extracted = Extracted(names: seq<string>, texts: seq<string>) | BadResume(message: string)

  /** The loop over `resumes`, as a function of the list. */
  function Extract(resumes: seq<Json>, show: Json -> string): Extracted
    decreases |resumes|
  {
    if resumes == [] then Extracted([], [])
    else
      var idx := |resumes| - 1;
      match Extract(resumes[..idx], show)
      case BadResume(m) => BadResume(m)
      case Extracted(names, texts) =>
        var resume := resumes[idx];
        match ResumeProblem(idx, resume)
        case Found(m) => BadResume(m)
        case NoProblem =>
          Extracted(names + [PyStr(resume.fields["name"], show)],
                    texts + [PyStr(resume.fields["content"], show)])
  }

  /** Lines 80-94: append each resume's `str(name)` and `str(content)`,
      returning early at the first bad resume. */
  method ExtractResumes(resumes: seq<Json>, show: Json -> string) returns (r: Extracted)
    ensures r == Extract(resumes, show)
  {
    var resumeTexts: seq<string> := [];
    var resumeNames: seq<string> := [];
    for idx := 0 to |resumes|
      invariant Extract(resumes[..idx], show) == Extracted(resumeNames, resumeTexts)
    {
      var resume := resumes[idx];
      assert resumes[..idx + 1][..idx] == resumes[..idx];
      if !resume.Obj? {
        r := BadResume("Resume at index " + Decimal(idx) + " must be an object");
        ExtractKeepsFailure(resumes, idx + 1, show);
        return;
      }
      if "name" !in resume.fields {
        r := BadResume("Resume at index " + Decimal(idx) + " is missing 'name' field");
        ExtractKeepsFailure(resumes, idx + 1, show);
        return;
      }
      if "content" !in resume.fields {
        r := BadResume("Resume at index " + Decimal(idx) + " is missing 'content' field");
        ExtractKeepsFailure(resumes, idx + 1, show);
        return;
      }
      resumeNames := resumeNames + [PyStr(resume.fields["name"], show)];
      resumeTexts := resumeTexts + [PyStr(resume.fields["content"], show)];
    }
    assert resumes[..|resumes|] == resumes;
    r := Extracted(resumeNames, resumeTexts);
  }

  /** Once a prefix has failed, the whole list fails with the same message:
      later resumes are never looked at. */
  lemma {:induction false} ExtractKeepsFailure(resumes: seq<Json>, n: nat, show: Json -> string)
    requires n <= |resumes| && Extract(resumes[..n], show).BadResume?
    ensures Extract(resumes, show) == Extract(resumes[..n], show)
    decreases |resumes| - n
  {
    if n < |resumes| {
      var longer := resumes[..n + 1];
      assert longer[..n] == resumes[..n];
      ExtractKeepsFailure(resumes, n + 1, show);
    } else {
      assert resumes[..n] == resumes;
    }
  }

  /** The message reported is that of the lowest offending index. */
  lemma {:induction false} ExtractReportsFirstProblem(resumes: seq<Json>, i: nat, show: Json -> string)
    requires i < |resumes| && ResumeProblem(i, resumes[i]).Found?
    requires forall j :: 0 <= j < i ==> ResumeProblem(j, resumes[j]).NoProblem?
    ensures Extract(resumes, show) == BadResume(ResumeProblem(i, resumes[i]).message)
  {
    ExtractSucceeds(resumes[..i], show);
    var prefix := resumes[..i + 1];
    assert prefix[..i] == resumes[..i];
    ExtractKeepsFailure(resumes, i + 1, show);
  }

  /** With no offending resume, the names and texts have one entry per
      resume, in input order, each the `str()` of its field. */
  lemma {:induction false} ExtractSucceeds(resumes: seq<Json>, show: Json -> string)
    requires forall j :: 0 <= j < |resumes| ==> ResumeProblem(j, resumes[j]).NoProblem?
    ensures Extract(resumes, show).Extracted?
    ensures var e := Extract(resumes, show);
            |e.names| == |resumes| && |e.texts| == |resumes| &&
            forall j :: 0 <= j < |resumes| ==>
              WellFormed(resumes[j]) &&
              e.names[j] == PyStr(resumes[j].fields["name"], show) &&
              e.texts[j] == PyStr(resumes[j].fields["content"], show)
    decreases |resumes|
  {
    if resumes != [] {
      var n := |resumes| - 1;
      var prefix := resumes[..n];
      assert forall j :: 0 <= j < n ==> prefix[j] == resumes[j];
      ExtractSucceeds(prefix, show);
    }
  }

  // ---------------------------------------------------------------------
  // The whole handler

  /** Lines 100-112: results become 200 with `total_matched`, a `ValueError`
      becomes 400 with its message, anything else a generic 500. */
  function Respond(outcome: Outcome): (r: Response)
    ensures r.status == 200 <==> outcome.Ranked?
    ensures r.status == 200 ==> r.body == ResultsBody(outcome.results, |outcome.results|)
    ensures r.status == 400 <==> outcome.Failed? && outcome.error.ValueError?
    ensures r.status == 400 ==> r.body == ErrorBody(outcome.error.message)
    ensures r.status == 500 <==> outcome == Failed(InternalError)
    ensures r.status == 500 ==> r.body == ErrorBody(ServerError)
  {
    match outcome
    case Ranked(results) => Response(200, ResultsBody(results, |results|))
    case Failed(ValueError(m)) => Response(400, ErrorBody(m))
    case Failed(InternalError) => Response(500, ErrorBody(ServerError))
  }

  /** The response `match()` sends for a request. */
  function Handle(req: Request, nlp: Nlp, similarity: Similarity, show: Json -> string): Response {
    match CheckRequest(req)
    case Refused(m) => Response(400, ErrorBody(m))
    case Accepted(resumes, job) =>
      match Extract(resumes, show)
      case BadResume(m) => Response(400, ErrorBody(m))
      case Extracted(names, texts) => Respond(Ranking(texts, names, job, nlp, similarity))
  }

  /** `match()`. */
  method Match(req: Request, nlp: Nlp, similarity: Similarity, show: Json -> string) returns (resp: Response)
    ensures resp == Handle(req, nlp, similarity, show)
  {
    var checked := CheckRequest(req);
    if checked.Refused? {
      return Response(400, ErrorBody(checked.message));
    }
    var extracted := ExtractResumes(checked.resumes, show);
    if extracted.BadResume? {
      return Response(400, ErrorBody(extracted.message));
    }
    var results := MatchResumes(extracted.texts, extracted.names, checked.job, nlp, similarity);
    resp := Respond(results);
  }

  /** A non-JSON request gets the content-type message whatever its body. */
  lemma NotJsonFirst(req: Request, nlp: Nlp, similarity: Similarity, show: Json -> string)
    requires !req.isJson
    ensures Handle(req, nlp, similarity, show) == Response(400, ErrorBody(NotJson))
  {
  }

  /** An empty `resumes` list is refused by the handler, although
      `match_resumes` itself would return `[]` for it. */
  lemma EmptyResumesRefused(req: Request, nlp: Nlp, similarity: Similarity, show: Json -> string)
    requires req.isJson && req.payload.JsonObject?
    requires "resumes" in req.payload.fields && req.payload.fields["resumes"] == Arr([])
    requires "job_description" in req.payload.fields
    ensures Handle(req, nlp, similarity, show) == Response(400, ErrorBody(ResumesEmpty))
    ensures forall job :: Ranking([], [], job, nlp, similarity) == Ranked([])
  {
  }

  /** A `job_description` that is not a string, or only whitespace, is
      refused once the resume list has passed its checks. */
  lemma BlankJobRefused(req: Request, nlp: Nlp, similarity: Similarity, show: Json -> string)
    requires req.isJson && req.payload.JsonObject?
    requires "resumes" in req.payload.fields && req.payload.fields["resumes"].Arr?
    requires req.payload.fields["resumes"].items != []
    requires "job_description" in req.payload.fields
    requires var job := req.payload.fields["job_description"]; !job.Str? || IsBlank(job.s)
    ensures Handle(req, nlp, similarity, show) == Response(400, ErrorBody(JobNotText))
  {
    var job := req.payload.fields["job_description"];
    if job.Str? {
      StripEmptyIffBlank(job.s);
    }
  }

  /** For an accepted request whose resumes are all well formed, the
      matcher's own guards never fire: its lists are non-empty and of equal
      length, so a 400 or 500 can only come from the scoring step. */
  lemma ValidRequestPassesMatcherGuards(req: Request, nlp: Nlp, similarity: Similarity, show: Json -> string)
    requires CheckRequest(req).Accepted?
    requires var resumes := CheckRequest(req).resumes;
             forall j :: 0 <= j < |resumes| ==> ResumeProblem(j, resumes[j]).NoProblem?
    ensures var c := CheckRequest(req);
            var e := Extract(c.resumes, show);
            e.Extracted? && |e.names| == |e.texts| == |c.resumes| > 0 &&
            Handle(req, nlp, similarity, show) == Respond(Ranking(e.texts, e.names, c.job, nlp, similarity))
  {
    ExtractSucceeds(CheckRequest(req).resumes, show);
  }

  /** The loop only completes when every resume is well formed. */
  lemma {:induction false} ExtractedMeansWellFormed(resumes: seq<Json>, show: Json -> string)
    requires Extract(resumes, show).Extracted?
    ensures forall j :: 0 <= j < |resumes| ==> WellFormed(resumes[j])
    decreases |resumes|
  {
    if resumes != [] {
      var n := |resumes| - 1;
      var prefix := resumes[..n];
      ExtractedMeansWellFormed(prefix, show);
      assert forall j :: 0 <= j < n ==> prefix[j] == resumes[j];
    }
  }

  /** A 200 response lists every resume exactly once, by the `str(name)` the
      loop collected, sorted by non-increasing score, and `total_matched` is
      its length. */
  lemma SuccessfulResponse(req: Request, nlp: Nlp, similarity: Similarity, show: Json -> string)
    requires Handle(req, nlp, similarity, show).status == 200
    ensures CheckRequest(req).Accepted?
    ensures var resumes := CheckRequest(req).resumes;
            var e := Extract(resumes, show);
            var body := Handle(req, nlp, similarity, show).body;
            (forall j :: 0 <= j < |resumes| ==> WellFormed(resumes[j])) &&
            e.Extracted? && body.ResultsBody? &&
            body.totalMatched == |body.results| == |resumes| &&
            multiset(NamesOf(body.results)) == multiset(e.names) &&
            SortedDesc(body.results)
  {
    var c := CheckRequest(req);
    var e := Extract(c.resumes, show);
    ExtractedMeansWellFormed(c.resumes, show);
    ExtractSucceeds(c.resumes, show);
    RankingSorted(e.texts, e.names, c.job, nlp, similarity);
  }
}
