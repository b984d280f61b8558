/**
  The feedback endpoint: `POST /api/feedback` takes a JSON body with a
  `feedback` string and appends it, stamped with the current time, to a
  plain-text log.

  The parsed body, the timestamp and the outcome of the file append are
  parameters: the handler's only own logic is the validation, the entry
  format and the mapping of outcomes to responses.
 */
module Feedback {

  import opened Optional

  /** A parsed JSON value. */
  datatype Json =
    | JNull
    | JBool(b: bool)
    | JNumber(n: real)
    | JString(s: string)
    | JArray(items: seq<Json>)
    | JObject(fields: map<string, Json>)

  /** What reading the request body as JSON produced. */
  datatype Body = Malformed | Parsed(value: Json)

  /** A property read in JavaScript: absent (`undefined`) or a JSON value. */
  datatype Field = Undefined | Present(value: Json)

  /** What the file system did with the append. */
  datatype AppendResult = Appended | AppendFailed

  /** A JSON response body: `{ success: true }` or `{ error: message }`. */
  datatype Payload = Success | Error(message: string)

  datatype Response = Response(status: nat, payload: Payload)

  const Saved: Response := Response(200, Success)
  const InvalidData: Response := Response(400, Error("Invalid feedback data"))
  const SaveFailed: Response := Response(500, Error("Failed to save feedback"))
  const InternalError: Response := Response(500, Error("Internal server error"))

  // ---------------------------------------------------------------------
  // Validation
  // ---------------------------------------------------------------------

  /** Destructuring `{ feedback }` from the parsed body. It throws on
      `null`; any other non-object has no such property. */
  function FeedbackField(v: Json): Option<Field> {
    match v
    case JNull => None
    case JObject(fields) => Some(if "feedback" in fields then Present(fields["feedback"]) else Undefined)
    case _ => Some(Undefined)
  }

  /** JavaScript falsiness of a value that can come out of JSON. */
  predicate Falsy(f: Field) {
    match f
    case Undefined => true
    case Present(v) =>
      match v
      case JNull => true
      case JBool(b) => !b
      case JNumber(n) => n == 0.0
      case JString(s) => s == ""
      case _ => false
  }

  /** The guard `!feedback || typeof feedback !== 'string'`: the text when
      it passes. */
  function Validate(f: Field): Option<string> {
    if Falsy(f) || !(f.Present? && f.value.JString?) then None else Some(f.value.s)
  }

  /** How the handler sees a request before any append. */
  datatype Submission = Unreadable | Invalid | Accepted(text: string)

  /**
    The handler's view of a body: unreadable when parsing or destructuring
    throws; accepted exactly when `feedback` is a non-empty string (blank
    text included); invalid otherwise.
   */
  function Classify(body: Body): (s: Submission)
    ensures s == Unreadable <==> body == Malformed || body == Parsed(JNull)
    ensures s.Accepted? <==>
      && body.Parsed? && body.value.JObject?
      && "feedback" in body.value.fields
      && body.value.fields["feedback"].JString?
      && body.value.fields["feedback"].s != ""
    ensures s.Accepted? ==> body.value.fields["feedback"] == JString(s.text)
  {
    match body
    case Malformed => Unreadable
    case Parsed(v) =>
      match FeedbackField(v)
      case None => Unreadable
      case Some(f) =>
        match Validate(f)
        case None => Invalid
        case Some(text) => Accepted(text)
  }

  // ---------------------------------------------------------------------
  // The log entry
  // ---------------------------------------------------------------------

  /** The entry appended for an accepted text: the bracketed timestamp on
      its own line, the text verbatim, then a blank line. */
  function Entry(timestamp: string, text: string): (e: string)
    ensures |e| == |timestamp| + |text| + 5
    ensures e[0] == '[' && e[1..|timestamp| + 1] == timestamp
    ensures e[|timestamp| + 1] == ']' && e[|timestamp| + 2] == '\n'
    ensures e[|timestamp| + 3..|e| - 2] == text
    ensures e[|e| - 2..] == "\n\n"
  {
    "[" + timestamp + "]\n" + text + "\n\n"
  }

  /** The first position at or after `from` holding `c`. */
  function FirstIndex(s: string, c: char, from: nat): (k: Option<nat>)
    requires from <= |s|
    decreases |s| - from
    ensures k.Some? ==> from <= k.value < |s| && s[k.value] == c
    ensures k.Some? ==> forall j :: from <= j < k.value ==> s[j] != c
    ensures k.None? ==> forall j :: from <= j < |s| ==> s[j] != c
  {
    if from == |s| then None
    else if s[from] == c then Some(from)
    else FirstIndex(s, c, from + 1)
  }

  /** Reads an entry back into its timestamp and text: the timestamp runs
      to the first closing bracket. */
  function ParseEntry(e: string): Option<(string, string)> {
    if |e| < 5 || e[0] != '[' || e[|e| - 2..] != "\n\n" then None
    else match FirstIndex(e, ']', 1)
      case None => None
      case Some(k) =>
        if k + 2 <= |e| - 2 && e[k + 1] == '\n' then Some((e[1..k], e[k + 2..|e| - 2]))
        else None
  }

  /** An ISO-8601 timestamp never contains a closing bracket, so every entry
      reads back as the timestamp and the exact text it was made from. */
  lemma EntryRoundTrip(timestamp: string, text: string)
    requires forall i :: 0 <= i < |timestamp| ==> timestamp[i] != ']'
    ensures ParseEntry(Entry(timestamp, text)) == Some((timestamp, text))
  {
  }

  // ---------------------------------------------------------------------
  // The handler
  // ---------------------------------------------------------------------

  /**
    One request against the log: an unreadable body is an internal error
    and an invalid one a 400, both before any append; an accepted text is
    appended as one entry and answered with success, unless the append
    fails, which is a 500 and leaves the log as it was. The log only ever
    grows at its end.
   */
  function Post(body: Body, timestamp: string, append: AppendResult, log: string): (r: (Response, string))
    ensures log <= r.1
    ensures Classify(body) == Unreadable ==> r == (InternalError, log)
    ensures Classify(body) == Invalid ==> r == (InvalidData, log)
    ensures Classify(body).Accepted? && append == AppendFailed ==> r == (SaveFailed, log)
    ensures Classify(body).Accepted? && append == Appended ==>
      r == (Saved, log + Entry(timestamp, Classify(body).text))
    ensures r.0.status == 200 <==> r.1 != log
  {
    match Classify(body)
    case Unreadable => (InternalError, log)
    case Invalid => (InvalidData, log)
    case Accepted(text) =>
      match append
      case AppendFailed => (SaveFailed, log)
      case Appended => (Saved, log + Entry(timestamp, text))
  }

  /** One request: its body, the time it is handled, and what the append
      would do. */
  datatype Request = Request(body: Body, timestamp: string, append: AppendResult)

  /** Handles requests one after another against the same log. */
  function Serve(log: string, requests: seq<Request>): (r: (seq<Response>, string))
    decreases |requests|
  {
    if requests == [] then ([], log)
    else
      var (resp, log') := Post(requests[0].body, requests[0].timestamp, requests[0].append, log);
      var (rest, final) := Serve(log', requests[1..]);
      ([resp] + rest, final)
  }

  /** The entry a request adds to the log: its entry when its text is
      accepted and the append succeeds, nothing otherwise. */
  function SavedEntry(q: Request): string {
    if Classify(q.body).Accepted? && q.append == Appended
    then Entry(q.timestamp, Classify(q.body).text) else ""
  }

  /** The entries the successful requests contribute, in order. */
  function SavedEntries(requests: seq<Request>): string
    decreases |requests|
  {
    if requests == [] then "" else SavedEntry(requests[0]) + SavedEntries(requests[1..])
  }

  /** One request extends the log by exactly its saved entry, and that
      entry is non-empty exactly when the request is answered with 200. */
  lemma PostAppendsSavedEntry(q: Request, log: string)
    ensures Post(q.body, q.timestamp, q.append, log).1 == log + SavedEntry(q)
    ensures Post(q.body, q.timestamp, q.append, log).0.status == 200 <==> SavedEntry(q) != ""
  {
    if SavedEntry(q) == "" {
      assert log + SavedEntry(q) == log;
    }
  }

  /** Over any run of requests the log is the old log followed by exactly the
      entries of the requests answered with 200, in the order their appends
      run; nothing is reordered or removed, and there is one response per
      request. */
  lemma {:induction false} ServeIsAppendOnly(log: string, requests: seq<Request>)
    ensures Serve(log, requests).1 == log + SavedEntries(requests)
    ensures |Serve(log, requests).0| == |requests|
    decreases |requests|
  {
    if requests != [] {
      var q := requests[0];
      PostAppendsSavedEntry(q, log);
      var log' := log + SavedEntry(q);
      ServeIsAppendOnly(log', requests[1..]);
      assert log' + SavedEntries(requests[1..]) == log + SavedEntries(requests);
    }
  }

  // ---------------------------------------------------------------------
  // Examples
  // ---------------------------------------------------------------------

  /** `{"feedback": "great job"}` is saved; `{}` and an empty string are
      rejected with 400; blank text is accepted; a non-string is rejected;
      a `null` body or an unparseable one is an internal error. */
  lemma Examples(ts: string, log: string)
    ensures Post(Parsed(JObject(map["feedback" := JString("great job")])), ts, Appended, log)
         == (Saved, log + Entry(ts, "great job"))
    ensures Post(Parsed(JObject(map[])), ts, Appended, log) == (InvalidData, log)
    ensures Post(Parsed(JObject(map["feedback" := JString("")])), ts, Appended, log) == (InvalidData, log)
    ensures Post(Parsed(JObject(map["feedback" := JString("   ")])), ts, Appended, log).0 == Saved
    ensures Post(Parsed(JObject(map["feedback" := JNumber(1.0)])), ts, Appended, log) == (InvalidData, log)
    ensures Post(Parsed(JNull), ts, Appended, log) == (InternalError, log)
    ensures Post(Malformed, ts, Appended, log) == (InternalError, log)
    ensures Post(Parsed(JObject(map["feedback" := JString("great job")])), ts, AppendFailed, log)
         == (SaveFailed, log)
  {
  }
}
