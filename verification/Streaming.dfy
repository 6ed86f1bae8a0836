/**
  Provider requests with retries (providers.py).  What the provider answers to each
  attempt is an input; decoding a JSON event is an oracle on its text.
  */
module Streaming {
  import opened Prelude
  import opened Text
  import opened MockProvider

  /** How the connection of one attempt ends after its lines: closed, lost (URLError
      or timeout, also when it never opened), or with any other exception. */
  datatype Ending = Closed | Lost | Broken

  datatype Response = Response(lines: seq<string>, ending: Ending)

  /** What `extract(json.loads(line))` gives. */
  datatype Extracted = Piece(text: string) | Malformed | Raised

  datatype Line = Ignored | Done | Event(json: string)

  predicate StartsWith(s: string, prefix: string) {
    prefix <= s
  }

  /** One raw line, as a server-sent event or as a bare JSON line. */
  function ReadLine(raw: string, sse: bool): Line {
    var line := Strip(raw);
    if sse then
      if !StartsWith(line, "data:") then Ignored
      else
        var data := Strip(line[5..]);
        if data == "[DONE]" then Done else if data == "" then Ignored else Event(data)
    else if line == "" then Ignored else Event(line)
  }

  /** A line of a server-sent event stream, whatever whitespace is around its parts:
      `[DONE]` ends the stream, and any other text is an event. */
  lemma EventLine(a: string, b: string, p: string, c: string)
    requires Blank(a) && Blank(b) && Blank(c)
    requires p != "" && !IsSpace(p[0]) && !IsSpace(p[|p| - 1])
    ensures ReadLine(a + ("data:" + b + p) + c, true) == if p == "[DONE]" then Done else Event(p)
  {
    var m := "data:" + b + p;
    assert m[0] == 'd' && m[|m| - 1] == p[|p| - 1] && m[..5] == "data:" && m[5..] == b + p;
    assert b + p + "" == b + p;
    StripSkips(a, m, c);
    StripSkips(b, p, "");
  }

  /** Every other line is skipped. */
  lemma OtherLine(a: string, m: string, c: string)
    requires Blank(a) && Blank(c) && m != "" && !IsSpace(m[0]) && !IsSpace(m[|m| - 1])
    requires !("data:" <= m)
    ensures ReadLine(a + m + c, true) == Ignored
  {
    StripSkips(a, m, c);
  }

  /** Without server-sent events every line that is not blank is an event. */
  lemma JsonLine(a: string, m: string, c: string)
    requires Blank(a) && Blank(c) && m != "" && !IsSpace(m[0]) && !IsSpace(m[|m| - 1])
    ensures ReadLine(a + m + c, false) == Event(m)
  {
    StripSkips(a, m, c);
  }

  lemma BlankLine(a: string, c: string, sse: bool)
    requires Blank(a) && Blank(c)
    ensures ReadLine(a, sse) == Ignored && ReadLine(a + "data:" + c, true) == Ignored
  {
    StripEmptyExactly(a);
    StripEmptyExactly(c);
    EmptyData(a, c);
  }

  lemma EmptyData(a: string, c: string)
    requires Blank(a) && Blank(c)
    ensures ReadLine(a + "data:" + c, true) == Ignored
  {
    assert "data:"[0] == 'd' && "data:"[4] == ':';
    StripSkips(a, "data:", c);
    StripEmptyExactly("data:"[5..]);
  }

  datatype Outcome = Finished | BadJson | Transport | Other

  datatype Attempt = Attempt(chunks: seq<string>, outcome: Outcome)

  type Reader = string -> Line

  /** The reading of lines for one kind of stream. */
  function ReaderFor(sse: bool): Reader {
    (raw: string) => ReadLine(raw, sse)
  }

  /** What one attempt publishes, and how it ends. */
  function Play(r: Response, sse: bool, extract: string -> Extracted): Attempt {
    PlayFrom(r, 0, ReaderFor(sse), extract)
  }

  /** The same from the i-th line on. */
  function PlayFrom(r: Response, i: nat, read: Reader, extract: string -> Extracted): Attempt
    requires i <= |r.lines|
    decreases |r.lines| - i
  {
    if i == |r.lines| then
      Attempt([], match r.ending case Closed => Finished case Lost => Transport case Broken => Other)
    else
      match read(r.lines[i])
      case Ignored => PlayFrom(r, i + 1, read, extract)
      case Done => Attempt([], Finished)
      case Event(json) =>
        match extract(json)
        case Malformed => Attempt([], BadJson)
        case Raised => Attempt([], Other)
        case Piece(text) =>
          var later := PlayFrom(r, i + 1, read, extract);
          if text == "" then later else later.(chunks := [text] + later.chunks)
  }

  /** The line ends the stream: its end marker, or an event that is malformed or raises. */
  predicate Ends(line: Line, extract: string -> Extracted) {
    line.Done? || (line.Event? && !extract(line.json).Piece?)
  }

  /** The non-empty pieces among the first `n` lines. */
  function Pieces(lines: seq<string>, n: nat, read: Reader, extract: string -> Extracted): seq<string>
    requires n <= |lines|
  {
    if n == 0 then []
    else
      var line := read(lines[n - 1]);
      Pieces(lines, n - 1, read, extract)
      + (if line.Event? && extract(line.json).Piece? && extract(line.json).text != "" then [extract(line.json).text] else [])
  }

  /** Reading stops at the first line that ends the stream: the pieces before it are
      published, and it decides the outcome; without such a line the connection does. */
  lemma {:induction false} PlayExactly(r: Response, n: nat, read: Reader, extract: string -> Extracted)
    requires n <= |r.lines| && forall i | 0 <= i < n :: !Ends(read(r.lines[i]), extract)
    requires n < |r.lines| ==> Ends(read(r.lines[n]), extract)
    ensures PlayFrom(r, 0, read, extract).chunks == Pieces(r.lines, n, read, extract)
    ensures n < |r.lines| && read(r.lines[n]).Done? ==> PlayFrom(r, 0, read, extract).outcome == Finished
    ensures n < |r.lines| && read(r.lines[n]).Event? ==>
      PlayFrom(r, 0, read, extract).outcome == if extract(read(r.lines[n]).json).Malformed? then BadJson else Other
    ensures n == |r.lines| ==>
      && (r.ending == Closed <==> PlayFrom(r, 0, read, extract).outcome == Finished)
      && (r.ending == Lost <==> PlayFrom(r, 0, read, extract).outcome == Transport)
      && (r.ending == Broken <==> PlayFrom(r, 0, read, extract).outcome == Other)
  {
    PlayFromHere(r, 0, n, read, extract);
    assert Pieces(r.lines, 0, read, extract) == [];
  }

  lemma {:induction false} PlayFromHere(r: Response, i: nat, n: nat, read: Reader, extract: string -> Extracted)
    requires i <= n <= |r.lines| && forall j | 0 <= j < n :: !Ends(read(r.lines[j]), extract)
    requires n < |r.lines| ==> Ends(read(r.lines[n]), extract)
    ensures Pieces(r.lines, i, read, extract) + PlayFrom(r, i, read, extract).chunks == Pieces(r.lines, n, read, extract)
    ensures PlayFrom(r, i, read, extract).outcome == PlayFrom(r, n, read, extract).outcome
    decreases n - i
  {
    if i < n {
      PlayFromHere(r, i + 1, n, read, extract);
    }
  }

  /** An attempt that failed before anyone saw a chunk: the only kind that is retried. */
  predicate Silent(a: Attempt) {
    a.outcome == Transport && a.chunks == []
  }

  datatype StreamError = MalformedEvent | LostAfterOutput | LostEveryTime | Uncaught

  /** `_stream_request`: the result, the chunks the listener saw, and the number of
      requests sent. */
  method StreamRequest(retries: int, responses: nat -> Response, sse: bool, extract: string -> Extracted)
    returns (result: Result<string, StreamError>, published: seq<string>, requests: nat)
    ensures requests <= if retries < 0 then 0 else retries + 1
    ensures requests == 0 <==> retries < 0
    // Only silent attempts are followed by another request.
    ensures forall a: nat | a + 1 < requests :: Silent(Play(responses(a), sse, extract))
    // What the listener saw comes from the last attempt alone.
    ensures published == if requests == 0 then [] else Play(responses(requests - 1), sse, extract).chunks
    ensures result.Success? <==> requests == 0 || Play(responses(requests - 1), sse, extract).outcome == Finished
    ensures result.Success? ==> result.value == Join(published)
    // Giving up on silence means every allowed attempt was silent.
    ensures requests > 0 && Silent(Play(responses(requests - 1), sse, extract)) ==> requests == retries + 1
    ensures result.Failure? ==>
      var outcome := Play(responses(requests - 1), sse, extract).outcome;
      && (result.error == MalformedEvent <==> outcome == BadJson)
      && (result.error == Uncaught <==> outcome == Other)
      && (result.error == LostAfterOutput <==> outcome == Transport && published != [])
      && (result.error == LostEveryTime <==> outcome == Transport && published == [])
  {
    var chunks: seq<string> := [];
    var lost := false;
    published, requests := [], 0;
    var attempt := 0;
    while attempt <= retries
      invariant requests == attempt && (retries >= 0 ==> attempt <= retries + 1)
      invariant retries < 0 ==> attempt == 0
      invariant chunks == published == []
      invariant lost <==> attempt > 0
      invariant forall a: nat | a < attempt :: Silent(Play(responses(a), sse, extract))
    {
      var outcome;
      requests := requests + 1;
      chunks, outcome := ReadStream(responses(attempt), ReaderFor(sse), extract);
      published := chunks;
      match outcome {
        case Finished =>
          return Success(Join(chunks)), published, requests;
        case BadJson =>
          return Failure(MalformedEvent), published, requests;
        case Other =>
          return Failure(Uncaught), published, requests;
        case Transport =>
          if chunks != [] {
            return Failure(LostAfterOutput), published, requests;
          }
          lost := true;
      }
      attempt := attempt + 1;
    }
    if lost {
      return Failure(LostEveryTime), published, requests;
    }
    return Success(""), published, requests;
  }

  /** The loop over the lines of one response. */
  method ReadStream(r: Response, read: Reader, extract: string -> Extracted) returns (chunks: seq<string>, outcome: Outcome)
    ensures Attempt(chunks, outcome) == PlayFrom(r, 0, read, extract)
  {
    chunks := [];
    var i := 0;
    while i < |r.lines|
      invariant i <= |r.lines|
      invariant PlayFrom(r, 0, read, extract).outcome == PlayFrom(r, i, read, extract).outcome
      invariant PlayFrom(r, 0, read, extract).chunks == chunks + PlayFrom(r, i, read, extract).chunks
    {
      var line := read(r.lines[i]);
      i := i + 1;
      if line.Done? {
        return chunks, Finished;
      }
      if line.Event? {
        match extract(line.json)
        case Malformed => return chunks, BadJson;
        case Raised => return chunks, Other;
        case Piece(text) =>
          if text != "" {
            chunks := chunks + [text];
          }
      }
    }
    outcome := match r.ending case Closed => Finished case Lost => Transport case Broken => Other;
  }

  /** Streaming never duplicates: over all answers, the chunks a listener saw from
      all attempts together are those of the one attempt whose text is returned. */
  lemma {:induction false} PublishedOverAllAttempts(responses: nat -> Response, sse: bool, extract: string -> Extracted,
                                                    requests: nat)
    requires requests > 0
    requires forall a: nat | a + 1 < requests :: Silent(Play(responses(a), sse, extract))
    ensures AllPublished(responses, sse, extract, requests) == Play(responses(requests - 1), sse, extract).chunks
  {
    SilentPublishNothing(responses, sse, extract, requests - 1);
  }

  /** Everything the first `n` attempts published, in order. */
  function AllPublished(responses: nat -> Response, sse: bool, extract: string -> Extracted, n: nat): seq<string> {
    if n == 0 then [] else AllPublished(responses, sse, extract, n - 1) + Play(responses(n - 1), sse, extract).chunks
  }

  lemma {:induction false} SilentPublishNothing(responses: nat -> Response, sse: bool, extract: string -> Extracted, n: nat)
    requires forall a: nat | a < n :: Silent(Play(responses(a), sse, extract))
    ensures AllPublished(responses, sse, extract, n) == []
  {
    if n > 0 {
      SilentPublishNothing(responses, sse, extract, n - 1);
    }
  }

  /******* Plain requests *******/

  datatype Reply = Body(text: string) | NotJson | HttpError(code: int, retryAfter: Option<int>) | Unreachable

  /** `_retryable`: 408, 429, 5xx and transport errors. */
  predicate Retryable(r: Reply) {
    match r
    case Body(_) => false
    case NotJson => false
    case HttpError(code, _) => code == 408 || code == 429 || 500 <= code < 600
    case Unreachable => true
  }

  function Pow2(e: nat): nat {
    if e == 0 then 1 else 2 * Pow2(e - 1)
  }

  /** `_backoff_delay`, in seconds. */
  function BackoffDelay(r: Reply, attempt: nat): (seconds: nat)
    ensures seconds <= 30
  {
    if r.HttpError? && r.retryAfter.Some? then
      (if r.retryAfter.value < 0 then 0 else if r.retryAfter.value > 30 then 30 else r.retryAfter.value)
    else if Pow2(attempt) < 8 then Pow2(attempt) else 8
  }

  /** A given delay is kept to within 30 seconds; otherwise the delay doubles from one
      second up to eight. */
  lemma BackoffTable(r: Reply, attempt: nat)
    ensures r.HttpError? && r.retryAfter.Some? ==>
      var given := r.retryAfter.value;
      && (0 <= given <= 30 ==> BackoffDelay(r, attempt) == given)
      && (given < 0 ==> BackoffDelay(r, attempt) == 0)
      && (given > 30 ==> BackoffDelay(r, attempt) == 30)
    ensures !(r.HttpError? && r.retryAfter.Some?) ==>
      BackoffDelay(r, attempt) == if attempt < 3 then [1, 2, 4][attempt] else 8
  {
    if attempt >= 3 {
      Pow2AtLeast8(attempt);
    }
    assert Pow2(1) == 2 && Pow2(2) == 4;
  }

  lemma {:induction false} Pow2AtLeast8(e: nat)
    requires e >= 3
    ensures Pow2(e) >= 8
  {
    if e > 3 {
      Pow2AtLeast8(e - 1);
    }
  }

  /** The delays after the first `n` replies. */
  function Waits(replies: nat -> Reply, n: nat): nat {
    if n == 0 then 0 else Waits(replies, n - 1) + BackoffDelay(replies(n - 1), n - 1)
  }

  /** `_request`: retries while the error is retryable, and nothing else. */
  method Request(retries: int, replies: nat -> Reply) returns (result: Result<string, Option<Reply>>, requests: nat, waited: nat)
    ensures requests <= if retries < 0 then 0 else retries + 1
    // What is retried is a time-out, a rate limit, a server error or no connection.
    ensures forall a: nat | a + 1 < requests ::
      replies(a) == Unreachable
      || (replies(a).HttpError? && (replies(a).code == 408 || replies(a).code == 429 || 500 <= replies(a).code < 600))
    ensures 0 < requests <= retries && replies(requests - 1).HttpError? ==>
      var code := replies(requests - 1).code; code != 408 && code != 429 && !(500 <= code < 600)
    ensures 0 < requests <= retries ==> replies(requests - 1) != Unreachable
    ensures requests == 0 <==> retries < 0
    ensures result == if requests == 0 then Failure(None)
                      else if replies(requests - 1).Body? then Success(replies(requests - 1).text)
                      else Failure(Some(replies(requests - 1)))
    ensures waited == (if requests == 0 then 0 else Waits(replies, requests - 1))
    ensures waited <= 30 * (if requests == 0 then 0 else requests - 1)
  {
    requests, waited := 0, 0;
    var last: Option<Reply> := None;
    var attempt := 0;
    while attempt <= retries
      invariant requests == attempt && (retries >= 0 ==> attempt <= retries) && (retries < 0 ==> attempt == 0)
      invariant forall a: nat | a < attempt :: Retryable(replies(a))
      invariant attempt == 0 ==> last == None
      invariant waited == Waits(replies, attempt) && waited <= 30 * attempt
    {
      var reply := replies(attempt);
      requests := requests + 1;
      if reply.Body? {
        return Success(reply.text), requests, waited;
      }
      last := Some(reply);
      if !Retryable(reply) || attempt == retries {
        break;
      }
      waited := waited + BackoffDelay(reply, attempt);
      attempt := attempt + 1;
    }
    return Failure(last), requests, waited;
  }
}
