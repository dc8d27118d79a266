/** The AI analysis client: a summary and suggested category ids for the
    text of a note, from two calls to a hosted inference service.

    HTTP is replaced by an oracle: `server(request, k)` is the response the
    service gives to the k-th attempt (counting from 0) at sending
    `request`. Waiting between attempts is not modelled. */
module Ai {
  import opened Wrappers
  import opened Text
  import opened NoteTypes

  const SummaryMaxLength: nat := 100
  const SummaryMinLength: nat := 30
  /** The default `maxRetries` of `fetchWithRetry`: requests per call at most. */
  const DefaultMaxRetries: int := 3
  /** The status the service answers with while the model is loading. */
  const Unavailable: nat := 503
  /** A label is suggested only when its score is strictly above this. */
  const ConfidenceThreshold: real := 0.3

  const NoSummary := "No summary available"
  const MissingTokenMessage := "Hugging Face API token is not configured"
  const RetriesExhaustedMessage := "Maximum retries reached, model still unavailable"
  const ModelLoadingMessage := "MODEL_LOADING"
  const StillLoadingMessage := "The AI model is still loading. Please try again in a few seconds."

  /** The JSON bodies the client posts; the constructor stands for the
      endpoint (the summarization model or the zero-shot classifier). */
  datatype Request =
    | Summarize(inputs: string, maxLength: nat, minLength: nat)
    | Classify(inputs: string, candidateLabels: seq<string>)

  /** A decoded response body: a JSON array, of which only the
      `summary_text` of each element is read, or a JSON object, of which only
      the four fields below are read. `None` stands for an absent field. */
  datatype Payload =
    | ArrayBody(summaryTexts: seq<Option<string>>)
    | ObjectBody(summaryText: Option<string>, error: Option<string>,
                 labels: Option<seq<string>>, scores: Option<seq<real>>)

  datatype Response = Response(status: nat, statusText: string, payload: Payload)

  /** `Response.ok`. */
  predicate IsOk(r: Response) {
    200 <= r.status <= 299
  }

  type Server = (Request, nat) -> Response

  datatype Endpoint = SummaryEndpoint | ClassificationEndpoint

  /** The errors raised inside the client. */
  datatype Fault =
    | MissingToken
    | RetriesExhausted
    | ApiStatus(endpoint: Endpoint, status: nat, statusText: string)
    | ModelLoading

  /** The message of the `Error` each fault is raised with. A status error
      names its endpoint, then the status in decimal, then the status text. */
  function Message(f: Fault): (m: string)
    ensures m != []
    ensures f.ApiStatus? && f.endpoint == SummaryEndpoint ==>
              "Summary API error: " <= m && m[19..] == Decimal(f.status) + " " + f.statusText
    ensures f.ApiStatus? && f.endpoint == ClassificationEndpoint ==>
              "Classification API error: " <= m && m[26..] == Decimal(f.status) + " " + f.statusText
  {
    match f
    case MissingToken => MissingTokenMessage
    case RetriesExhausted => RetriesExhaustedMessage
    case ApiStatus(endpoint, status, text) =>
      var prefix := if endpoint == SummaryEndpoint then "Summary API error: " else "Classification API error: ";
      var detail := Decimal(status) + " " + text;
      assert (prefix + detail)[|prefix|..] == detail;
      prefix + detail
    case ModelLoading => ModelLoadingMessage
  }

  /** Only the loading signal carries the message "MODEL_LOADING": no status
      error can be mistaken for it, whatever its status text. */
  lemma MessageIsLoadingIff(f: Fault)
    ensures Message(f) == ModelLoadingMessage <==> f == ModelLoading
  {
    if f.ApiStatus? {
      var name := if f.endpoint == SummaryEndpoint then "Summary API error: " else "Classification API error: ";
      var rest := Decimal(f.status) + " " + f.statusText;
      assert Message(f) == name + rest;
      assert Message(f)[0] == name[0] != ModelLoadingMessage[0];
    } else if f.RetriesExhausted? {
      assert |RetriesExhaustedMessage| != |ModelLoadingMessage|;
    } else if f.MissingToken? {
      assert MissingTokenMessage[0] == 'H' && ModelLoadingMessage[0] == 'M';
    }
  }

  /** The message `analyzeNote` finally throws for a fault: the loading
      signal is rewritten into a request to try again, and every other message
      is passed on unchanged. */
  function Surfaced(f: Fault): (m: string)
    ensures f == ModelLoading ==> m == StillLoadingMessage
    ensures f != ModelLoading ==> m == Message(f)
  {
    MessageIsLoadingIff(f);
    if Message(f) == ModelLoadingMessage then StillLoadingMessage else Message(f)
  }

  /** `waitForModel`: a body whose `error` mentions "loading" raises the
      loading signal; any other body is handed back as it is. */
  function WaitForModel(p: Payload): (r: Result<Payload, Fault>)
    ensures r.Failure? <==> p.ObjectBody? && p.error.Some? && Contains(p.error.value, "loading")
    ensures r.Failure? ==> r.error == ModelLoading
    ensures r.Success? ==> r.value == p
  {
    if p.ObjectBody? && p.error.Some? && p.error.value != "" && Contains(p.error.value, "loading")
    then Failure(ModelLoading)
    else Success(p)
  }

  /** A JavaScript string field is truthy when present and non-empty. */
  predicate Truthy(t: Option<string>) {
    t.Some? && t.value != ""
  }

  /** The summary text: the first element's `summary_text` of an array body,
      else the object's own `summary_text`, else the fallback. An array has no
      `summary_text` of its own, so an array whose first element offers none
      falls back. The result is never empty. */
  function SelectSummary(p: Payload): (r: string)
    ensures r != ""
    ensures p.ArrayBody? && |p.summaryTexts| > 0 && Truthy(p.summaryTexts[0])
            ==> r == p.summaryTexts[0].value
    ensures p.ObjectBody? && Truthy(p.summaryText) ==> r == p.summaryText.value
    ensures r != NoSummary ==> (p.ArrayBody? && |p.summaryTexts| > 0 && Truthy(p.summaryTexts[0]))
                               || (p.ObjectBody? && Truthy(p.summaryText))
  {
    match p
    case ArrayBody(texts) =>
      if |texts| > 0 && Truthy(texts[0]) then texts[0].value else NoSummary
    case ObjectBody(text, _, _, _) =>
      if Truthy(text) then text.value else NoSummary
  }

  // ---------------------------------------------------------------------
  // fetchWithRetry
  // ---------------------------------------------------------------------

  /** The outcome of `fetchWithRetry` from attempt `i` on, and the number of
      requests issued by the end. */
  function RetryFrom(server: Server, request: Request, maxRetries: int, i: nat)
    : (Result<Response, Fault>, nat)
    decreases maxRetries - i
  {
    if i >= maxRetries then (Failure(RetriesExhausted), i)
    else if server(request, i).status == Unavailable then RetryFrom(server, request, maxRetries, i + 1)
    else (Success(server(request, i)), i + 1)
  }

  /** `fetchWithRetry`: sends `request` at most `maxRetries` times, until the
      service answers with a status other than 503, and returns that response
      as it is, whether ok or not. When every attempt is answered with 503 it
      fails with the retries-exhausted error. */
  method FetchWithRetry(server: Server, request: Request, maxRetries: int)
    returns (r: Result<Response, Fault>, attempts: nat)
    ensures attempts <= if maxRetries < 0 then 0 else maxRetries
    ensures forall k :: 0 <= k < attempts - 1 ==> server(request, k).status == Unavailable
    ensures r.Success? ==> attempts >= 1 && r.value == server(request, attempts - 1)
                           && r.value.status != Unavailable
    ensures r.Failure? ==> r.error == RetriesExhausted
                           && attempts == (if maxRetries < 0 then 0 else maxRetries)
                           && forall k :: 0 <= k < attempts ==> server(request, k).status == Unavailable
    ensures (r, attempts) == RetryFrom(server, request, maxRetries, 0)
  {
    var i: nat := 0;
    while i < maxRetries
      invariant maxRetries >= 0 ==> i <= maxRetries
      invariant maxRetries < 0 ==> i == 0
      invariant forall k :: 0 <= k < i ==> server(request, k).status == Unavailable
      invariant RetryFrom(server, request, maxRetries, i) == RetryFrom(server, request, maxRetries, 0)
    {
      var response := server(request, i);
      if response.status == Unavailable {
        i := i + 1;
        continue;
      }
      return Success(response), i + 1;
    }
    return Failure(RetriesExhausted), i;
  }

  // ---------------------------------------------------------------------
  // From classifier labels and scores to category ids
  // ---------------------------------------------------------------------

  /** An entry of `availableCategories`. */
  datatype Candidate = Candidate(id: CategoryId, name: string)

  /** `id` belongs to one of the candidates. */
  predicate Offered(available: seq<Candidate>, id: CategoryId) {
    exists j :: 0 <= j < |available| && available[j].id == id
  }

  /** Candidate `j` is the first whose name equals `name` ignoring case. */
  predicate FirstMatchAt(available: seq<Candidate>, name: string, j: int) {
    && 0 <= j < |available|
    && Lower(available[j].name) == Lower(name)
    && forall k :: 0 <= k < j ==> Lower(available[k].name) != Lower(name)
  }

  /** `availableCategories.find(...)?.id`: the id of the first candidate whose
      name equals `name` ignoring case, if there is one. */
  function FindCategory(available: seq<Candidate>, name: string): (r: Option<CategoryId>)
    ensures r.None? <==> forall j :: 0 <= j < |available| ==> Lower(available[j].name) != Lower(name)
    ensures r.Some? ==> exists j :: FirstMatchAt(available, name, j) && available[j].id == r.value
    decreases |available|
  {
    if available == [] then None
    else if Lower(available[0].name) == Lower(name) then
      assert FirstMatchAt(available, name, 0);
      Some(available[0].id)
    else
      var r := FindCategory(available[1..], name);
      assert forall j :: FirstMatchAt(available[1..], name, j) ==> FirstMatchAt(available, name, j + 1);
      r
  }

  /** The labels whose score, at the same index, is above the threshold;
      a missing score drops its label. */
  function ConfidentLabels(labels: seq<string>, scores: seq<real>): (r: seq<string>)
    ensures |r| <= |labels|
    decreases |labels|
  {
    if labels == [] then []
    else
      (if scores != [] && scores[0] > ConfidenceThreshold then [labels[0]] else [])
      + ConfidentLabels(labels[1..], if scores == [] then [] else scores[1..])
  }

  /** The names mapped to ids, dropping the names no candidate matches. */
  function MatchIds(available: seq<Candidate>, names: seq<string>): (r: seq<CategoryId>)
    ensures |r| <= |names|
    ensures forall id :: id in r ==> Offered(available, id)
    decreases |names|
  {
    if names == [] then []
    else
      (match FindCategory(available, names[0])
       case Some(id) => [id]
       case None => [])
      + MatchIds(available, names[1..])
  }

  function SuggestedIds(available: seq<Candidate>, labels: seq<string>, scores: seq<real>)
    : seq<CategoryId>
  {
    MatchIds(available, ConfidentLabels(labels, scores))
  }

  /** The suggested ids of a classification body: none unless it has both
      `labels` and `scores`; never an id that is not a candidate's. */
  function ClassificationIds(available: seq<Candidate>, p: Payload): (r: seq<CategoryId>)
    ensures forall id :: id in r ==> Offered(available, id)
    ensures !(p.ObjectBody? && p.labels.Some? && p.scores.Some?) ==> r == []
  {
    if p.ObjectBody? && p.labels.Some? && p.scores.Some?
    then SuggestedIds(available, p.labels.value, p.scores.value)
    else []
  }

  /** A label is kept exactly when its score, at the same index, is
      strictly above the threshold: a score of exactly 0.3, or none at all,
      drops it. */
  lemma {:induction false} ConfidentLabelsIff(labels: seq<string>, scores: seq<real>, x: string)
    ensures x in ConfidentLabels(labels, scores)
            <==> exists i :: 0 <= i < |labels| && i < |scores| && scores[i] > ConfidenceThreshold
                             && labels[i] == x
    decreases |labels|
  {
    if labels != [] {
      var scores' := if scores == [] then [] else scores[1..];
      ConfidentLabelsIff(labels[1..], scores', x);
      if x in ConfidentLabels(labels[1..], scores') {
        var i :| 0 <= i < |labels[1..]| && i < |scores'| && scores'[i] > ConfidenceThreshold
                 && labels[1..][i] == x;
        assert labels[i + 1] == x && scores[i + 1] == scores'[i];
      }
      if exists i :: 0 <= i < |labels| && i < |scores| && scores[i] > ConfidenceThreshold
                     && labels[i] == x {
        var i :| 0 <= i < |labels| && i < |scores| && scores[i] > ConfidenceThreshold
                 && labels[i] == x;
        if i > 0 {
          assert labels[1..][i - 1] == x && scores'[i - 1] == scores[i];
        }
      }
    }
  }

  /** An id comes out of `MatchIds` exactly when some name maps to it. */
  lemma {:induction false} MatchIdsIff(available: seq<Candidate>, names: seq<string>, id: CategoryId)
    ensures id in MatchIds(available, names)
            <==> exists x :: x in names && FindCategory(available, x) == Some(id)
    decreases |names|
  {
    if names != [] {
      MatchIdsIff(available, names[1..], id);
      if exists x :: x in names && FindCategory(available, x) == Some(id) {
        var x :| x in names && FindCategory(available, x) == Some(id);
        if x != names[0] {
          assert x in names[1..];
        }
      }
    }
  }

  /** An id is suggested exactly when some label whose score, at the same
      index, is strictly above 0.3 has that id as its first case-insensitive
      match. */
  lemma SuggestedIdsIff(
    available: seq<Candidate>, labels: seq<string>, scores: seq<real>, id: CategoryId)
    ensures id in SuggestedIds(available, labels, scores)
            <==> exists i :: 0 <= i < |labels| && i < |scores| && scores[i] > ConfidenceThreshold
                             && FindCategory(available, labels[i]) == Some(id)
  {
    var kept := ConfidentLabels(labels, scores);
    MatchIdsIff(available, kept, id);
    if id in SuggestedIds(available, labels, scores) {
      var x :| x in kept && FindCategory(available, x) == Some(id);
      ConfidentLabelsIff(labels, scores, x);
    }
    if exists i :: 0 <= i < |labels| && i < |scores| && scores[i] > ConfidenceThreshold
                   && FindCategory(available, labels[i]) == Some(id) {
      var i :| 0 <= i < |labels| && i < |scores| && scores[i] > ConfidenceThreshold
               && FindCategory(available, labels[i]) == Some(id);
      ConfidentLabelsIff(labels, scores, labels[i]);
    }
  }

  lemma {:induction false} MatchIdsAppend(available: seq<Candidate>, xs: seq<string>, ys: seq<string>)
    ensures MatchIds(available, xs + ys) == MatchIds(available, xs) + MatchIds(available, ys)
    decreases |xs|
  {
    if xs != [] {
      var head := match FindCategory(available, xs[0]) case Some(id) => [id] case None => [];
      assert (xs + ys)[0] == xs[0];
      assert (xs + ys)[1..] == xs[1..] + ys;
      assert MatchIds(available, xs) == head + MatchIds(available, xs[1..]);
      assert MatchIds(available, xs + ys) == head + MatchIds(available, xs[1..] + ys);
      MatchIdsAppend(available, xs[1..], ys);
    } else {
      assert xs + ys == ys;
    }
  }

  lemma {:induction false} ConfidentLabelsAppend(
    labels: seq<string>, scores: seq<real>, labels': seq<string>, scores': seq<real>)
    requires |labels| == |scores|
    ensures ConfidentLabels(labels + labels', scores + scores')
            == ConfidentLabels(labels, scores) + ConfidentLabels(labels', scores')
    decreases |labels|
  {
    if labels != [] {
      var head := if scores[0] > ConfidenceThreshold then [labels[0]] else [];
      assert (labels + labels')[0] == labels[0] && (scores + scores')[0] == scores[0];
      assert (labels + labels')[1..] == labels[1..] + labels';
      assert (scores + scores')[1..] == scores[1..] + scores';
      assert ConfidentLabels(labels, scores) == head + ConfidentLabels(labels[1..], scores[1..]);
      assert ConfidentLabels(labels + labels', scores + scores')
             == head + ConfidentLabels(labels[1..] + labels', scores[1..] + scores');
      ConfidentLabelsAppend(labels[1..], scores[1..], labels', scores');
    } else {
      assert labels + labels' == labels' && scores + scores' == scores';
    }
  }

  /** Suggestions follow the classifier's label order: the ids for a prefix
      of the labels come before those for the rest. */
  lemma SuggestedIdsAppend(
    available: seq<Candidate>, labels: seq<string>, scores: seq<real>,
    labels': seq<string>, scores': seq<real>)
    requires |labels| == |scores|
    ensures SuggestedIds(available, labels + labels', scores + scores')
            == SuggestedIds(available, labels, scores) + SuggestedIds(available, labels', scores')
  {
    ConfidentLabelsAppend(labels, scores, labels', scores');
    MatchIdsAppend(available, ConfidentLabels(labels, scores), ConfidentLabels(labels', scores'));
  }

  /** Labels "Work" and "Ideas" scored 0.5 and 0.2 against candidates 1
      "Work" and 2 "Ideas" suggest category 1 only. */
  lemma SuggestedIdsExample()
    ensures SuggestedIds([Candidate(1, "Work"), Candidate(2, "Ideas")],
                         ["Work", "Ideas"], [0.5, 0.2]) == [1]
  {
    var available := [Candidate(1, "Work"), Candidate(2, "Ideas")];
    assert ConfidentLabels(["Work", "Ideas"], [0.5, 0.2]) == ["Work"];
    assert FindCategory(available, "Work") == Some(1);
  }

  // ---------------------------------------------------------------------
  // analyzeNote
  // ---------------------------------------------------------------------

  datatype AnalysisResult = AnalysisResult(summary: string, suggestedCategories: seq<CategoryId>)

  function Names(available: seq<Candidate>): (r: seq<string>)
    ensures |r| == |available| && forall j :: 0 <= j < |available| ==> r[j] == available[j].name
  {
    seq(|available|, j requires 0 <= j < |available| => available[j].name)
  }

  /** The `candidate_labels` sent to the classifier: the names joined with
      ", " and split again at ", ". */
  function CandidateLabels(available: seq<Candidate>): seq<string> {
    Split(Join(Names(available), ListSeparator), ListSeparator)
  }

  /** The labels are the candidates' names when there is at least one
      candidate and no name contains ", ". */
  lemma CandidateLabelsAreNames(available: seq<Candidate>)
    requires available != []
    requires forall j :: 0 <= j < |available| ==> !Contains(available[j].name, ListSeparator)
    ensures CandidateLabels(available) == Names(available)
  {
    SplitJoin(Names(available));
  }

  /** `request` sent `n` times. */
  function Repeat(request: Request, n: nat): (r: seq<Request>)
    ensures |r| == n && forall k :: 0 <= k < n ==> r[k] == request
  {
    seq(n, _ => request)
  }

  /** The body of a response returned by `fetchWithRetry`, once its status
      has been checked and `waitForModel` has looked at it. */
  function Receive(endpoint: Endpoint, fetched: Result<Response, Fault>): (r: Result<Payload, Fault>)
    ensures fetched.Failure? ==> r == Failure(fetched.error)
    ensures fetched.Success? && !IsOk(fetched.value) ==>
              r == Failure(ApiStatus(endpoint, fetched.value.status, fetched.value.statusText))
    ensures r.Success? ==> fetched.Success? && IsOk(fetched.value) && r.value == fetched.value.payload
    ensures fetched.Success? && IsOk(fetched.value) ==> r == WaitForModel(fetched.value.payload)
    ensures fetched.Success? && r == Failure(ModelLoading) ==> IsOk(fetched.value)
  {
    match fetched
    case Failure(f) => Failure(f)
    case Success(response) =>
      if !IsOk(response) then Failure(ApiStatus(endpoint, response.status, response.statusText))
      else WaitForModel(response.payload)
  }

  function SummaryRequest(content: string): Request {
    Summarize(content, SummaryMaxLength, SummaryMinLength)
  }

  function ClassifyRequest(content: string, available: seq<Candidate>): Request {
    Classify(content, CandidateLabels(available))
  }

  /** What `analyzeNote` returns or throws, and the requests it sends, in
      order. An empty `token` stands for a token that is not configured. */
  function Analyze(token: string, content: string, available: seq<Candidate>, server: Server)
    : (Result<AnalysisResult, string>, seq<Request>)
  {
    if token == "" then (Failure(MissingTokenMessage), [])
    else
      var (fetched, n) := RetryFrom(server, SummaryRequest(content), DefaultMaxRetries, 0);
      var sent := Repeat(SummaryRequest(content), n);
      match Receive(SummaryEndpoint, fetched)
      case Failure(f) => (Failure(Surfaced(f)), sent)
      case Success(summaryBody) =>
        var (fetched', n') := RetryFrom(server, ClassifyRequest(content, available), DefaultMaxRetries, 0);
        var sent' := sent + Repeat(ClassifyRequest(content, available), n');
        match Receive(ClassificationEndpoint, fetched')
        case Failure(f) => (Failure(Surfaced(f)), sent')
        case Success(classificationBody) =>
          (Success(AnalysisResult(SelectSummary(summaryBody), ClassificationIds(available, classificationBody))), sent')
  }

  /** `analyzeNote`: the summary first, then the classification, each through
      `fetchWithRetry` with its default bound. */
  method AnalyzeNote(token: string, content: string, available: seq<Candidate>, server: Server)
    returns (r: Result<AnalysisResult, string>, sent: seq<Request>)
    ensures (r, sent) == Analyze(token, content, available, server)
    ensures r.Success? ==> r.value.summary != ""
                           && forall id :: id in r.value.suggestedCategories ==> Offered(available, id)
  {
    if token == "" {
      return Failure(MissingTokenMessage), [];
    }
    var summaryRequest := SummaryRequest(content);
    var fetched, n := FetchWithRetry(server, summaryRequest, DefaultMaxRetries);
    sent := Repeat(summaryRequest, n);
    var summaryBody := Receive(SummaryEndpoint, fetched);
    if summaryBody.Failure? {
      return Failure(Surfaced(summaryBody.error)), sent;
    }
    var summary := SelectSummary(summaryBody.value);

    var classifyRequest := ClassifyRequest(content, available);
    var fetched', n' := FetchWithRetry(server, classifyRequest, DefaultMaxRetries);
    sent := sent + Repeat(classifyRequest, n');
    var classificationBody := Receive(ClassificationEndpoint, fetched');
    if classificationBody.Failure? {
      return Failure(Surfaced(classificationBody.error)), sent;
    }
    r := Success(AnalysisResult(summary, ClassificationIds(available, classificationBody.value)));
  }

  /** Without a token nothing is sent and the configuration error is thrown. */
  lemma AnalyzeWithoutToken(content: string, available: seq<Candidate>, server: Server)
    ensures Analyze("", content, available, server) == (Failure(MissingTokenMessage), [])
  {
  }

  /** At most three requests per endpoint are sent, and each is the summary
      request or the classification request for this note. */
  lemma AnalyzeSends(token: string, content: string, available: seq<Candidate>, server: Server)
    ensures var sent := Analyze(token, content, available, server).1;
            |sent| <= 2 * DefaultMaxRetries
            && forall k :: 0 <= k < |sent| ==>
                 sent[k] == SummaryRequest(content) || sent[k] == ClassifyRequest(content, available)
    ensures exists n, m :: (0 <= n <= DefaultMaxRetries && 0 <= m <= DefaultMaxRetries
                            && Analyze(token, content, available, server).1
                               == Repeat(SummaryRequest(content), n) + Repeat(ClassifyRequest(content, available), m))
  {
    var sent := Analyze(token, content, available, server).1;
    var summary, classify := SummaryRequest(content), ClassifyRequest(content, available);
    RetryAttempts(server, summary, DefaultMaxRetries, 0);
    RetryAttempts(server, classify, DefaultMaxRetries, 0);
    var n := if token == "" then 0 else RetryFrom(server, summary, DefaultMaxRetries, 0).1;
    var m := if token == "" || Receive(SummaryEndpoint, RetryFrom(server, summary, DefaultMaxRetries, 0).0).Failure?
             then 0 else RetryFrom(server, classify, DefaultMaxRetries, 0).1;
    assert sent == Repeat(summary, n) + Repeat(classify, m);
  }

  /** From attempt `i`, `fetchWithRetry` counts no more than `maxRetries`
      attempts in all. */
  lemma {:induction false} RetryAttempts(server: Server, request: Request, maxRetries: int, i: nat)
    requires i <= maxRetries
    ensures i <= RetryFrom(server, request, maxRetries, i).1 <= maxRetries
    decreases maxRetries - i
  {
    if i < maxRetries && server(request, i).status == Unavailable {
      RetryAttempts(server, request, maxRetries, i + 1);
    }
  }

  /** A status that is neither ok nor 503 ends the analysis at once: one
      request, no retry, and an error naming the status. */
  lemma AnalyzeStopsOnError(token: string, content: string, available: seq<Candidate>, server: Server)
    requires token != ""
    requires var first := server(SummaryRequest(content), 0);
             first.status != Unavailable && !IsOk(first)
    ensures var first := server(SummaryRequest(content), 0);
            Analyze(token, content, available, server)
            == (Failure("Summary API error: " + Decimal(first.status) + " " + first.statusText),
                [SummaryRequest(content)])
  {
    var first := server(SummaryRequest(content), 0);
    assert RetryFrom(server, SummaryRequest(content), DefaultMaxRetries, 0) == (Success(first), 1);
    assert Repeat(SummaryRequest(content), 1) == [SummaryRequest(content)];
    assert "Summary API error: " + Decimal(first.status) + " " + first.statusText
           == "Summary API error: " + (Decimal(first.status) + " " + first.statusText);
  }

  /** A loading body on an ok response is not retried: one request, and the
      try-again message. */
  lemma AnalyzeLoadingOnce(token: string, content: string, available: seq<Candidate>, server: Server)
    requires token != ""
    requires var first := server(SummaryRequest(content), 0);
             IsOk(first) && first.payload.ObjectBody? && first.payload.error.Some?
             && Contains(first.payload.error.value, "loading")
    ensures Analyze(token, content, available, server)
            == (Failure(StillLoadingMessage), [SummaryRequest(content)])
  {
    var first := server(SummaryRequest(content), 0);
    assert RetryFrom(server, SummaryRequest(content), DefaultMaxRetries, 0) == (Success(first), 1);
    assert Repeat(SummaryRequest(content), 1) == [SummaryRequest(content)];
  }

  /** The summary call is answered at once with an ok body that is not a
      loading notice. */
  ghost predicate SummaryAnsweredFirst(content: string, server: Server) {
    var first := server(SummaryRequest(content), 0);
    IsOk(first) && WaitForModel(first.payload).Success?
  }

  /** After a good summary, a classification status that is neither ok nor
      503 ends the analysis at once: one request to each endpoint, no retry,
      and an error naming the status. */
  lemma ClassifyStopsOnError(token: string, content: string, available: seq<Candidate>, server: Server)
    requires token != "" && SummaryAnsweredFirst(content, server)
    requires var first := server(ClassifyRequest(content, available), 0);
             first.status != Unavailable && !IsOk(first)
    ensures var first := server(ClassifyRequest(content, available), 0);
            Analyze(token, content, available, server)
            == (Failure("Classification API error: " + Decimal(first.status) + " " + first.statusText),
                [SummaryRequest(content), ClassifyRequest(content, available)])
  {
    var summary := server(SummaryRequest(content), 0);
    var first := server(ClassifyRequest(content, available), 0);
    assert summary.status != Unavailable;
    assert RetryFrom(server, SummaryRequest(content), DefaultMaxRetries, 0) == (Success(summary), 1);
    assert RetryFrom(server, ClassifyRequest(content, available), DefaultMaxRetries, 0) == (Success(first), 1);
    assert Repeat(SummaryRequest(content), 1) + Repeat(ClassifyRequest(content, available), 1)
           == [SummaryRequest(content), ClassifyRequest(content, available)];
    MessageIsLoadingIff(ApiStatus(ClassificationEndpoint, first.status, first.statusText));
    assert "Classification API error: " + Decimal(first.status) + " " + first.statusText
           == "Classification API error: " + (Decimal(first.status) + " " + first.statusText);
  }

  /** After a good summary, a loading body on an ok classification response
      is not retried: one request to each endpoint, and the try-again
      message. */
  lemma ClassifyLoadingOnce(token: string, content: string, available: seq<Candidate>, server: Server)
    requires token != "" && SummaryAnsweredFirst(content, server)
    requires var first := server(ClassifyRequest(content, available), 0);
             IsOk(first) && first.payload.ObjectBody? && first.payload.error.Some?
             && Contains(first.payload.error.value, "loading")
    ensures Analyze(token, content, available, server)
            == (Failure(StillLoadingMessage), [SummaryRequest(content), ClassifyRequest(content, available)])
  {
    var summary := server(SummaryRequest(content), 0);
    var first := server(ClassifyRequest(content, available), 0);
    assert summary.status != Unavailable && first.status != Unavailable;
    assert RetryFrom(server, SummaryRequest(content), DefaultMaxRetries, 0) == (Success(summary), 1);
    assert RetryFrom(server, ClassifyRequest(content, available), DefaultMaxRetries, 0) == (Success(first), 1);
    assert Repeat(SummaryRequest(content), 1) + Repeat(ClassifyRequest(content, available), 1)
           == [SummaryRequest(content), ClassifyRequest(content, available)];
  }

  /** Three 503 answers to the summary request end the analysis after
      exactly three requests, with the retries-exhausted error. */
  lemma AnalyzeExhausted(token: string, content: string, available: seq<Candidate>, server: Server)
    requires token != ""
    requires forall k :: 0 <= k < 3 ==> server(SummaryRequest(content), k).status == Unavailable
    ensures Analyze(token, content, available, server)
            == (Failure(RetriesExhaustedMessage), Repeat(SummaryRequest(content), 3))
  {
  }
}
