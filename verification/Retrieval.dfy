/**
  Authorised HTTP retrieval against an arbitrary world: a redirect loop around a retry
  loop, with an event trace of everything the client does.
 */
module Retrieval {
  import opened Prelude
  import opened PyText

  type Url = string

  /** How a streamed body ends after its chunks. */
  datatype BodyEnd = Complete | BadEncoding | BrokenTransport

  datatype Response = Response(
    status: int, contentLength: Option<string>, identityEncoding: bool, location: Option<string>,
    chunks: seq<Bytes>, end: BodyEnd)

  /** What sending one request comes to. */
  datatype Sent =
    | DecodingFailure | ProtocolError(aboutLocation: bool) | TransportFailure(certificate: bool) | OtherFailure
    | Unexpected   // an exception of no request-error class, which nothing here catches
    | Opened(response: Response)

  datatype Event =
    | Authorize(url: Url, accepted: bool) | Request(url: Url) | Open | Chunk(bytes: Bytes) | Close | Sleep(seconds: nat)

  /** The server, the authoriser and `urljoin`; the first two may depend on all that happened before. */
  datatype World = World(
    send: (seq<Event>, Url) -> Sent,
    authorize: (seq<Event>, Url) -> bool,
    join: (Url, string) -> Option<Url>)

  datatype RetrievalError =
    | BadArguments | Unauthorized | ContentEncoding | InvalidRedirect | TransportFailed | TlsUntrusted
    | HttpStatus(status: int) | NotFound | LengthMismatch | TooLarge
    | Escaped   // an error that is none of the retrieval errors

  datatype Observation = Observation(requested: Url, final: Url, chain: seq<Url>, status: int,
    contentLength: Option<nat>)

  datatype Artifact = Artifact(url: Url, content: Bytes, observation: Observation)

  const MAX_ATTEMPTS := 3
  const MAX_CONTENT_LENGTH := 0x7FFF_FFFF_FFFF_FFFF

  // ---------------------------------------------------------------- headers

  function OptionalContentLength(header: Option<string>): Option<nat> {
    if header.None? then None
    else
      var raw := Strip(header.value);
      if !AllDigits(raw) then None
      else if DecimalValue(raw) > MAX_CONTENT_LENGTH then None
      else Some(DecimalValue(raw))
  }

  function RequiredContentLength(header: Option<string>): Result<Option<nat>, RetrievalError> {
    if header.None? then Success(None)
    else
      var raw := Strip(header.value);
      if !AllDigits(raw) then Failure(LengthMismatch)
      else if DecimalValue(raw) > MAX_CONTENT_LENGTH then Failure(LengthMismatch)
      else Success(Some(DecimalValue(raw)))
  }

  /** The header is this number: a decimal numeral, perhaps after zeros, perhaps between whitespace. */
  ghost predicate Denotes(header: string, n: nat) {
    exists before, zeros, after :: IsLengthText(header, before, zeros, n, after)
  }

  ghost predicate IsLengthText(header: string, before: string, zeros: string, n: nat, after: string) {
    && AllSpace(before) && AllSpace(after) && AllZeros(zeros)
    && header == before + (zeros + Decimal(n) + after)
  }

  lemma {:induction false} NumeralIsRead(zeros: string, n: nat)
    requires AllZeros(zeros)
    ensures
      var core := zeros + Decimal(n);
      AllDigits(core) && DecimalValue(core) == n && !IsSpace(core[0]) && !IsSpace(core[|core| - 1])
  {
    DecimalReadsBack(n);
    ZerosCountNothing(zeros, Decimal(n));
    var core := zeros + Decimal(n);
    forall i | 0 <= i < |core| ensures '0' <= core[i] <= '9' && !IsSpace(core[i]) {
      assert i >= |zeros| ==> core[i] == Decimal(n)[i - |zeros|];
    }
  }

  lemma {:induction false} DenotesIff(header: string, n: nat)
    ensures Denotes(header, n) <==> AllDigits(Strip(header)) && DecimalValue(Strip(header)) == n
  {
    forall before, zeros, after | IsLengthText(header, before, zeros, n, after)
      ensures AllDigits(Strip(header)) && DecimalValue(Strip(header)) == n
    {
      NumeralIsRead(zeros, n);
      StripFinds(before, zeros + Decimal(n), after);
    }
    if AllDigits(Strip(header)) && DecimalValue(Strip(header)) == n {
      var before, after := StripParts(header);
      var zeros, m := DigitsAreNumeral(Strip(header));
      assert IsLengthText(header, before, zeros, n, after);
    }
  }

  /**
    Both parsers give a length exactly when the header denotes it and it fits in 63 bits;
    any other header is refused by one and ignored by the other.
   */
  lemma {:induction false} LengthIff(header: string, n: nat)
    ensures RequiredContentLength(Some(header)) == Success(Some(n)) <==> Denotes(header, n) && n <= 9223372036854775807
    ensures OptionalContentLength(Some(header)) == Some(n) <==> Denotes(header, n) && n <= 9223372036854775807
    ensures RequiredContentLength(Some(header)) != Success(None)
  {
    DenotesIff(header, n);
  }

  /** The two parsers agree: one raises exactly where the other forgets a header that was there. */
  lemma {:induction false} ParsersAgree(header: Option<string>)
    ensures RequiredContentLength(header).Success? ==>
      RequiredContentLength(header).value == OptionalContentLength(header)
    ensures RequiredContentLength(header).Failure? <==> header.Some? && OptionalContentLength(header).None?
  {
  }

  /** A reference is used exactly when it stands, free of whitespace, between whitespace, and nothing is a control. */
  lemma {:induction false} LocationIff(header: string, reference: string)
    ensures UsableLocation(Some(header)) == Some(reference) <==>
      && reference != "" && (forall i :: 0 <= i < |reference| ==> !IsSpace(reference[i]))
      && (forall i :: 0 <= i < |header| ==> !IsControl(header[i]))
      && exists before, after :: AllSpace(before) && AllSpace(after) && header == before + (reference + after)
  {
    if reference != "" { StripIff(header, reference); }
    HoldsIn(header, IsControl);
    HoldsIn(reference, IsSpace);
  }

  lemma {:induction false} HoldsIn(s: string, p: char -> bool)
    ensures (exists c :: c in s && p(c)) <==> exists i :: 0 <= i < |s| && p(s[i])
  {
    if exists i :: 0 <= i < |s| && p(s[i]) {
      var i :| 0 <= i < |s| && p(s[i]);
      assert s[i] in s;
    }
  }

  /** The redirect reference, when the header is usable. */
  function UsableLocation(location: Option<string>): Option<string> {
    if location.None? || exists c :: c in location.value && IsControl(c) then None
    else
      var trimmed := Strip(location.value);
      if trimmed == "" || exists c :: c in trimmed && IsSpace(c) then None else Some(trimmed)
  }

  /** Seconds to wait after the given failed attempt. */
  function RetryBackoff(failedAttempt: nat): (seconds: nat)
    requires failedAttempt >= 1
    ensures seconds == match failedAttempt case 1 => 1 case 2 => 2 case 3 => 4 case _ => 8
  {
    assert failedAttempt > 3 ==> Pow2(failedAttempt - 1) >= Pow2(3) by {
      if failedAttempt > 3 { PowMonotone(3, failedAttempt - 1); }
    }
    var delay := Pow2(failedAttempt - 1);
    var least := if delay < 1 then 1 else delay;
    if least > 8 then 8 else least
  }

  predicate IsRetryable(status: int) { status == 429 || 500 <= status <= 599 }

  predicate IsRedirect(status: int) { status in {301, 302, 303, 307, 308} }

  function StatusError(status: int): RetrievalError { if status == 404 then NotFound else HttpStatus(status) }

  // ---------------------------------------------------------------- trace

  type Trace = seq<Event>

  /** Idle, a request out without a response yet, a response open, or a broken discipline. */
  datatype Phase = Idle | Waiting | Holding | Broken

  function NextPhase(p: Phase, e: Event): Phase {
    match p
    case Idle => if e.Authorize? || e.Sleep? then Idle else if e.Request? then Waiting else Broken
    case Waiting => if e.Open? then Holding else if e.Sleep? then Idle else Broken
    case Holding => if e.Close? then Idle else if e.Authorize? || e.Chunk? then Holding else Broken
    case Broken => Broken
  }

  function PhaseOf(t: Trace): Phase { if t == [] then Idle else NextPhase(PhaseOf(t[..|t| - 1]), t[|t| - 1]) }

  /** The requests and pauses of a trace, in order. */
  function Paced(t: Trace): Trace {
    if t == [] then []
    else Paced(t[..|t| - 1]) + if t[|t| - 1].Request? || t[|t| - 1].Sleep? then [t[|t| - 1]] else []
  }

  /** The trace up to and including each of its requests. */
  function Prompts(t: Trace): seq<Trace> {
    if t == [] then [] else Prompts(t[..|t| - 1]) + if t[|t| - 1].Request? then [t] else []
  }

  /** Every request was preceded by an accepting authorisation of its URL. */
  predicate AllAuthorized(t: Trace) {
    t == []
    || (AllAuthorized(t[..|t| - 1]) && (t[|t| - 1].Request? ==> Authorize(t[|t| - 1].url, true) in t[..|t| - 1]))
  }

  /** The trace with one more event. */
  function Log(t: Trace, e: Event): (r: Trace)
    ensures r == t + [e] && PhaseOf(r) == NextPhase(PhaseOf(t), e)
    ensures Paced(r) == Paced(t) + if e.Request? || e.Sleep? then [e] else []
    ensures Prompts(r) == Prompts(t) + if e.Request? then [r] else []
    ensures AllAuthorized(r) <==> AllAuthorized(t) && (e.Request? ==> Authorize(e.url, true) in t)
  {
    assert (t + [e])[..|t|] == t;
    t + [e]
  }

  /** `t` goes on from `t0` without a request or a pause. */
  predicate SameSteps(t0: Trace, t: Trace) {
    && t0 <= t && Paced(t) == Paced(t0) && Prompts(t) == Prompts(t0)
    && (AllAuthorized(t) <==> AllAuthorized(t0))
  }

  function Concat(chunks: seq<Bytes>): Bytes {
    if chunks == [] then [] else Concat(chunks[..|chunks| - 1]) + chunks[|chunks| - 1]
  }

  // ---------------------------------------------------------------- the body

  /**
    Reads the body under the byte cap.  The client closes the response itself only after
    its last chunk; every other way out leaves it open.
   */
  method ReadBody(response: Response, maxBytes: Option<nat>, t0: Trace)
    returns (r: Result<Bytes, RetrievalError>, t: Trace, closed: bool)
    requires PhaseOf(t0) == Holding
    ensures SameSteps(t0, t)
    ensures PhaseOf(t) == if closed then Idle else Holding
    ensures r.Success? <==> response.end == Complete && (maxBytes.Some? ==> |Concat(response.chunks)| <= maxBytes.value)
    ensures r.Success? ==> r.value == Concat(response.chunks)
    ensures r.Failure? ==>
      match r.error
      case TooLarge => maxBytes.Some? && |Concat(response.chunks)| > maxBytes.value
      case ContentEncoding => response.end == BadEncoding
        && (maxBytes.Some? ==> |Concat(response.chunks)| <= maxBytes.value)
      case Escaped => response.end == BrokenTransport
        && (maxBytes.Some? ==> |Concat(response.chunks)| <= maxBytes.value)
      case _ => false
    ensures closed <==> r.Success?
  {
    t, closed := t0, false;
    var chunks: seq<Bytes> := [];
    var received := 0;
    for k := 0 to |response.chunks|
      invariant chunks == response.chunks[..k] && received == |Concat(response.chunks[..k])|
      invariant maxBytes.Some? ==> received <= maxBytes.value
      invariant SameSteps(t0, t) && PhaseOf(t) == Holding
    {
      var chunk := response.chunks[k];
      StepsGoOn(t0, t, Chunk(chunk));
      t := Log(t, Chunk(chunk));
      received := received + |chunk|;
      ConcatStep(response.chunks, k);
      if maxBytes.Some? && received > maxBytes.value {
        ConcatGrows(response.chunks, k + 1);
        return Failure(TooLarge), t, false;
      }
      chunks := chunks + [chunk];
    }
    assert response.chunks[..|response.chunks|] == response.chunks;
    match response.end
    case BadEncoding => return Failure(ContentEncoding), t, false;
    case BrokenTransport => return Failure(Escaped), t, false;
    case Complete =>
      StepsGoOn(t0, t, Close);
      t := Log(t, Close);
      return Success(Concat(chunks)), t, true;
  }

  lemma {:induction false} StepsGoOn(t0: Trace, t: Trace, e: Event)
    requires SameSteps(t0, t) && (e.Chunk? || e.Close?)
    ensures SameSteps(t0, Log(t, e))
  {
  }

  lemma {:induction false} ConcatStep(chunks: seq<Bytes>, k: nat)
    requires k < |chunks|
    ensures chunks[..k + 1] == chunks[..k] + [chunks[k]]
    ensures |Concat(chunks[..k + 1])| == |Concat(chunks[..k])| + |chunks[k]|
  {
    assert chunks[..k + 1][..k] == chunks[..k];
  }

  lemma {:induction false} ConcatGrows(chunks: seq<Bytes>, k: nat)
    requires k <= |chunks|
    ensures |Concat(chunks[..k])| <= |Concat(chunks)|
    decreases |chunks|
  {
    if k < |chunks| {
      assert chunks[..|chunks| - 1][..k] == chunks[..k];
      ConcatGrows(chunks[..|chunks| - 1], k);
    } else {
      assert chunks[..k] == chunks;
    }
  }

  // ---------------------------------------------------------------- one response

  /** The artifact a terminal response makes, if any. */
  ghost predicate Makes(a: Artifact, response: Response, url: Url, requested: Url, chain: seq<Url>,
                        maxBytes: Option<nat>) {
    && response.status == 200 && response.identityEncoding && response.end == Complete
    && a.url == url && a.content == Concat(response.chunks)
    && (maxBytes.Some? ==> |a.content| <= maxBytes.value)
    && RequiredContentLength(response.contentLength).Success?
    && (response.contentLength.Some? ==> RequiredContentLength(response.contentLength).value == Some(|a.content|))
    && a.observation
       == Observation(requested, url, chain, 200, if response.contentLength.Some? then Some(|a.content|) else None)
  }

  /** The first thing wrong with a terminal response: status, encoding, declared length, cap, body, length received. */
  ghost predicate Refuses(response: Response, maxBytes: Option<nat>, e: RetrievalError) {
    var declared, received := RequiredContentLength(response.contentLength), |Concat(response.chunks)|;
    var tooLong := maxBytes.Some? && declared.Success? && declared.value.Some? && declared.value.value > maxBytes.value;
    var tooMuch := maxBytes.Some? && received > maxBytes.value;
    if response.status != 200 then e == if response.status == 404 then NotFound else HttpStatus(response.status)
    else if !response.identityEncoding then e == ContentEncoding
    else if declared.Failure? then e == LengthMismatch
    else if tooLong || tooMuch then e == TooLarge
    else if response.end == BadEncoding then e == ContentEncoding
    else if response.end == BrokenTransport then e == Escaped
    else e == LengthMismatch && declared.value.Some? && declared.value.value != received
  }

  method ArtifactFromResponse(response: Response, requested: Url, url: Url, chain: seq<Url>, maxBytes: Option<nat>,
                              t0: Trace)
    returns (r: Result<Artifact, RetrievalError>, t: Trace, closed: bool)
    requires PhaseOf(t0) == Holding
    ensures SameSteps(t0, t)
    ensures PhaseOf(t) == if closed then Idle else Holding
    ensures r.Success? <==> exists a :: Makes(a, response, url, requested, chain, maxBytes)
    ensures r.Failure? ==> Refuses(response, maxBytes, r.error)
    ensures r.Success? ==> Makes(r.value, response, url, requested, chain, maxBytes)
  {
    t, closed := t0, false;
    ParsersAgree(response.contentLength);
    var observation := Observation(requested, url, chain, response.status,
      OptionalContentLength(response.contentLength));
    if response.status != 200 { return Failure(StatusError(response.status)), t, false; }
    if !response.identityEncoding { return Failure(ContentEncoding), t, false; }
    var declared := RequiredContentLength(response.contentLength);
    if declared.Failure? { return Failure(LengthMismatch), t, false; }
    if declared.value.Some? && maxBytes.Some? && declared.value.value > maxBytes.value {
      return Failure(TooLarge), t, false;
    }
    var body;
    body, t, closed := ReadBody(response, maxBytes, t0);
    if body.Failure? { return Failure(body.error), t, closed; }
    if declared.value.Some? && |body.value| != declared.value.value { return Failure(LengthMismatch), t, closed; }
    r := Success(Artifact(url, body.value, observation));
    assert Makes(r.value, response, url, requested, chain, maxBytes);
  }

  /** A usable Location leads, within the hop limit, to an authorised URL not visited yet. */
  ghost predicate Redirects(world: World, response: Response, current: Url, chain: seq<Url>, visited: set<Url>,
                            maxRedirects: nat, t: Trace, target: Url) {
    && UsableLocation(response.location).Some?
    && world.join(current, UsableLocation(response.location).value) == Some(target)
    && world.authorize(t, target) && target !in visited && |chain| < maxRedirects
  }

  /** What a refusal of a redirect says: an unusable reference, or the URL it led to. */
  ghost predicate RedirectRefused(world: World, response: Response, current: Url, chain: seq<Url>, visited: set<Url>,
                                  maxRedirects: nat, t: Trace, e: RetrievalError) {
    var location := UsableLocation(response.location);
    var target := if location.Some? then world.join(current, location.value) else None;
    match e
    case Escaped => location.Some? && target.None?
    case Unauthorized => target.Some? && !world.authorize(t, target.value)
    case InvalidRedirect =>
      location.None?
        || (target.Some? && world.authorize(t, target.value) && (target.value in visited || |chain| >= maxRedirects))
    case _ => false
  }

  /** The next hop, or why not; every candidate is put to the authoriser before anything else is decided. */
  method RedirectTarget(world: World, response: Response, current: Url, chain: seq<Url>, visited: set<Url>,
                        maxRedirects: nat, t0: Trace)
    returns (r: Result<Url, RetrievalError>, t: Trace)
    requires PhaseOf(t0) == Holding
    ensures SameSteps(t0, t)
    ensures PhaseOf(t) == Holding
    ensures r.Success? ==> Authorize(r.value, true) in t
    ensures r.Failure? ==> RedirectRefused(world, response, current, chain, visited, maxRedirects, t0, r.error)
    ensures r.Success? <==>
      exists target :: Redirects(world, response, current, chain, visited, maxRedirects, t0, target)
    ensures r.Success? ==> Redirects(world, response, current, chain, visited, maxRedirects, t0, r.value)
  {
    t := t0;
    var location := UsableLocation(response.location);
    if location.None? { return Failure(InvalidRedirect), t; }
    var target := world.join(current, location.value);
    if target.None? { return Failure(Escaped), t; }
    var accepted := world.authorize(t, target.value);
    t := Log(t, Authorize(target.value, accepted));
    if !accepted { return Failure(Unauthorized), t; }
    if target.value in visited { return Failure(InvalidRedirect), t; }
    if |chain| >= maxRedirects { return Failure(InvalidRedirect), t; }
    assert Redirects(world, response, current, chain, visited, maxRedirects, t0, target.value);
    return Success(target.value), t;
  }

  // ---------------------------------------------------------------- one hop

  datatype Hop = Delivered(artifact: Artifact) | Redirected(target: Url) | HopFailed(error: RetrievalError)

  /** Answers worth another attempt: transport trouble without a verdict, 429 and 5xx. */
  predicate AsksRetry(s: Sent) {
    match s
    case ProtocolError(aboutLocation) => !aboutLocation
    case TransportFailure(certificate) => !certificate
    case Opened(response) => response.status == 429 || 500 <= response.status <= 599
    case _ => false
  }

  /** The failure an answer without a usable response stands for. */
  function SendError(s: Sent): RetrievalError
    requires !s.Opened?
  {
    match s
    case DecodingFailure => ContentEncoding
    case ProtocolError(aboutLocation) => if aboutLocation then InvalidRedirect else TransportFailed
    case TransportFailure(certificate) => if certificate then TlsUntrusted else TransportFailed
    case OtherFailure => TransportFailed
    case Unexpected => Escaped
  }

  /** The most one hop does: three requests with the backoff between them. */
  function Pace(url: Url): (r: Trace)
    ensures |r| == 2 * MAX_ATTEMPTS - 1
  {
    [Request(url), Sleep(1), Request(url), Sleep(2), Request(url)]
  }

  /** One hop: its URL and the trace at the moment of each of its requests. */
  datatype Visit = Visit(url: Url, prompts: seq<Trace>)

  predicate IsPrompt(p: Trace, url: Url) { p != [] && p[|p| - 1] == Request(url) }

  /** The world's answer to the n-th request of a hop. */
  ghost function Answer(world: World, v: Visit, n: nat): Sent
    requires n < |v.prompts|
  {
    world.send(v.prompts[n], v.url)
  }

  /** The last answer, and the trace once its response is open. */
  ghost function LastAnswer(world: World, v: Visit): Sent
    requires v.prompts != []
  {
    Answer(world, v, |v.prompts| - 1)
  }

  function Opening(v: Visit): Trace
    requires v.prompts != []
  {
    v.prompts[|v.prompts| - 1] + [Open]
  }

  /** Every request of the hop is for its URL, and every answer but the last asks for another attempt. */
  ghost predicate Asked(world: World, v: Visit) {
    && 1 <= |v.prompts| <= MAX_ATTEMPTS
    && (forall n :: 0 <= n < |v.prompts| ==> IsPrompt(v.prompts[n], v.url))
    && (forall n :: 0 <= n < |v.prompts| - 1 ==> AsksRetry(Answer(world, v, n)))
  }

  /** The hop went on for as long as its answers asked for it. */
  ghost predicate Persists(world: World, v: Visit) {
    Asked(world, v) && (|v.prompts| < MAX_ATTEMPTS ==> !AsksRetry(LastAnswer(world, v)))
  }

  /** What one hop leaves in the trace: its requests with the pauses between them, and nothing else paced. */
  ghost predicate HopTrace(world: World, t0: Trace, t: Trace, v: Visit) {
    && Asked(world, v) && t0 <= t && AllAuthorized(t) && (PhaseOf(t) == Idle || PhaseOf(t) == Waiting)
    && Paced(t) == Paced(t0) + Pace(v.url)[..2 * |v.prompts| - 1]
    && Prompts(t) == Prompts(t0) + v.prompts
  }

  /** The trace before another attempt of a hop. */
  ghost predicate BeforeAttempt(world: World, t0: Trace, t: Trace, v: Visit) {
    && |v.prompts| < MAX_ATTEMPTS && t0 <= t && AllAuthorized(t) && PhaseOf(t) == Idle
    && (forall n :: 0 <= n < |v.prompts| ==> IsPrompt(v.prompts[n], v.url) && AsksRetry(Answer(world, v, n)))
    && Paced(t) == Paced(t0) + Pace(v.url)[..2 * |v.prompts|]
    && Prompts(t) == Prompts(t0) + v.prompts
  }

  /** The hop with one more request. */
  function More(v: Visit, t: Trace): Visit { v.(prompts := v.prompts + [t + [Request(v.url)]]) }

  lemma {:induction false} SentAttempt(world: World, t0: Trace, t: Trace, v: Visit)
    requires BeforeAttempt(world, t0, t, v) && Authorize(v.url, true) in t
    ensures PhaseOf(Log(t, Request(v.url))) == Waiting && HopTrace(world, t0, Log(t, Request(v.url)), More(v, t))
  {
    var n, w := |v.prompts|, More(v, t);
    assert Pace(v.url)[..2 * n + 1] == Pace(v.url)[..2 * n] + [Request(v.url)];
    forall k | 0 <= k < n ensures Answer(world, w, k) == Answer(world, v, k) {}
  }

  lemma {:induction false} PausedAttempt(world: World, t0: Trace, t: Trace, v: Visit)
    requires HopTrace(world, t0, t, v) && |v.prompts| < MAX_ATTEMPTS && AsksRetry(LastAnswer(world, v))
    ensures BeforeAttempt(world, t0, Log(t, Sleep(RetryBackoff(|v.prompts|))), v)
  {
    var n := |v.prompts|;
    assert RetryBackoff(1) == 1 && RetryBackoff(2) == 2;
    assert Pace(v.url)[..2 * n] == Pace(v.url)[..2 * n - 1] + [Sleep(RetryBackoff(n))];
  }

  // ---------------------------------------------------------------- how a hop ends

  ghost predicate IsRedirection(response: Response) {
    response.status == 301 || response.status == 302 || response.status == 303 || response.status == 307
    || response.status == 308
  }

  /** What an open response, with the trace at its opening, makes of the hop. */
  ghost predicate Concludes(world: World, response: Response, open: Trace, url: Url, requested: Url, chain: seq<Url>,
                            visited: set<Url>, maxRedirects: nat, maxBytes: Option<nat>, hop: Hop) {
    if AsksRetry(Opened(response)) then hop == HopFailed(HttpStatus(response.status))
    else if IsRedirection(response) then
      match hop
      case Redirected(target) => Redirects(world, response, url, chain, visited, maxRedirects, open, target)
      case HopFailed(e) => RedirectRefused(world, response, url, chain, visited, maxRedirects, open, e)
      case Delivered(_) => false
    else
      match hop
      case Delivered(a) => Makes(a, response, url, requested, chain, maxBytes)
      case HopFailed(e) => Refuses(response, maxBytes, e)
      case Redirected(_) => false
  }

  /** The hop's last answer, and nothing else, decides how it ends. */
  ghost predicate Settles(world: World, v: Visit, requested: Url, chain: seq<Url>, visited: set<Url>,
                          maxRedirects: nat, maxBytes: Option<nat>, hop: Hop) {
    v.prompts != [] &&
    match LastAnswer(world, v)
    case Opened(response) =>
      Concludes(world, response, Opening(v), v.url, requested, chain, visited, maxRedirects, maxBytes, hop)
    case failed => hop == HopFailed(SendError(failed))
  }

  /** Handles an open response; true in `retry` means it asked to be tried again. */
  method UseResponse(world: World, response: Response, url: Url, requested: Url, chain: seq<Url>, visited: set<Url>,
                     maxRedirects: nat, maxBytes: Option<nat>, t0: Trace)
    returns (hop: Hop, retry: bool, t: Trace)
    requires PhaseOf(t0) == Holding
    ensures SameSteps(t0, t)
    ensures PhaseOf(t) == Idle
    ensures retry <==> AsksRetry(Opened(response))
    ensures Concludes(world, response, t0, url, requested, chain, visited, maxRedirects, maxBytes, hop)
    ensures hop.Redirected? ==> Authorize(hop.target, true) in t
    ensures hop.Redirected? <==>
      && IsRedirection(response)
      && exists target :: Redirects(world, response, url, chain, visited, maxRedirects, t0, target)
    ensures hop.Delivered? <==> exists a :: Makes(a, response, url, requested, chain, maxBytes)
  {
    t, retry := t0, false;
    if IsRetryable(response.status) {
      hop, retry := HopFailed(StatusError(response.status)), true;
      t := Log(t, Close);
    } else if IsRedirect(response.status) {
      var target;
      target, t := RedirectTarget(world, response, url, chain, visited, maxRedirects, t0);
      hop := if target.Success? then Redirected(target.value) else HopFailed(target.error);
      t := Log(t, Close);
    } else {
      var made, closed;
      made, t, closed := ArtifactFromResponse(response, requested, url, chain, maxBytes, t0);
      hop := if made.Success? then Delivered(made.value) else HopFailed(made.error);
      if !closed { t := Log(t, Close); }
    }
  }

  lemma {:induction false} UsedAttempt(world: World, t0: Trace, t1: Trace, t2: Trace, v: Visit)
    requires HopTrace(world, t0, t1, v) && SameSteps(t1, t2) && PhaseOf(t2) == Idle
    ensures HopTrace(world, t0, t2, v)
  {
  }

  /** One attempt of a hop: `retry` repeats what its answer asks for, and the answer decides the result. */
  method Attempt(world: World, url: Url, requested: Url, chain: seq<Url>, visited: set<Url>, maxRedirects: nat,
                 maxBytes: Option<nat>, ghost t0: Trace, t1: Trace, ghost v: Visit)
    returns (hop: Hop, retry: bool, t: Trace)
    requires v.url == url && BeforeAttempt(world, t0, t1, v) && Authorize(url, true) in t1
    ensures HopTrace(world, t0, t, More(v, t1)) && t1 <= t
    ensures retry <==> AsksRetry(LastAnswer(world, More(v, t1)))
    ensures Settles(world, More(v, t1), requested, chain, visited, maxRedirects, maxBytes, hop)
    ensures hop.Redirected? ==> PhaseOf(t) == Idle && Authorize(hop.target, true) in t
  {
    SentAttempt(world, t0, t1, v);
    t := Log(t1, Request(url));
    var sent := world.send(t, url);
    assert sent == LastAnswer(world, More(v, t1));
    match sent
    case DecodingFailure => return HopFailed(ContentEncoding), false, t;
    case OtherFailure => return HopFailed(TransportFailed), false, t;
    case Unexpected => return HopFailed(Escaped), false, t;
    case ProtocolError(aboutLocation) =>
      return HopFailed(if aboutLocation then InvalidRedirect else TransportFailed), !aboutLocation, t;
    case TransportFailure(certificate) =>
      return HopFailed(if certificate then TlsUntrusted else TransportFailed), !certificate, t;
    case Opened(response) =>
      ghost var asked := t;
      hop, retry, t :=
        UseResponse(world, response, url, requested, chain, visited, maxRedirects, maxBytes, Log(t, Open));
      UsedAttempt(world, t0, asked, t, More(v, t1));
  }

  /** One authorised hop, with its retries: a retryable outcome stands only after the last attempt. */
  method Exchange(world: World, url: Url, requested: Url, chain: seq<Url>, visited: set<Url>,
                  maxRedirects: nat, maxBytes: Option<nat>, t0: Trace)
    returns (hop: Hop, t: Trace, ghost v: Visit)
    requires PhaseOf(t0) == Idle && AllAuthorized(t0) && Authorize(url, true) in t0
    ensures v.url == url && HopTrace(world, t0, t, v) && Persists(world, v)
    ensures Settles(world, v, requested, chain, visited, maxRedirects, maxBytes, hop)
    ensures hop.Redirected? ==> PhaseOf(t) == Idle && Authorize(hop.target, true) in t
  {
    t, v := t0, Visit(url, []);
    for attempt := 1 to MAX_ATTEMPTS + 1
      invariant attempt <= MAX_ATTEMPTS && |v.prompts| == attempt - 1 && v.url == url
      invariant BeforeAttempt(world, t0, t, v) && Authorize(url, true) in t
    {
      var retry;
      ghost var before := t;
      hop, retry, t := Attempt(world, url, requested, chain, visited, maxRedirects, maxBytes, t0, t, v);
      v := More(v, before);
      if !retry || attempt == MAX_ATTEMPTS { return hop, t, v; }
      PausedAttempt(world, t0, t, v);
      t := Log(t, Sleep(RetryBackoff(attempt)));
    }
    assert false;
  }

  // ---------------------------------------------------------------- the redirect loop

  function Urls(visits: seq<Visit>): (r: seq<Url>)
    ensures |r| == |visits| && forall i :: 0 <= i < |r| ==> r[i] == visits[i].url
  {
    seq(|visits|, i requires 0 <= i < |visits| => visits[i].url)
  }

  function Elements(urls: seq<Url>): set<Url> { set u | u in urls }

  /** Every hop made one to three requests. */
  predicate Counted(visits: seq<Visit>) { forall i :: 0 <= i < |visits| ==> 1 <= |visits[i].prompts| <= MAX_ATTEMPTS }

  /** The requests and pauses of hops made in turn. */
  function AllPaced(visits: seq<Visit>): Trace
    requires Counted(visits)
  {
    if visits == [] then []
    else
      var last := visits[|visits| - 1];
      AllPaced(visits[..|visits| - 1]) + Pace(last.url)[..2 * |last.prompts| - 1]
  }

  function AllPrompts(visits: seq<Visit>): seq<Trace> {
    if visits == [] then [] else AllPrompts(visits[..|visits| - 1]) + visits[|visits| - 1].prompts
  }

  /** The hop's last answer was a redirect whose usable, authorised, unvisited target this is. */
  ghost predicate Onward(world: World, v: Visit, chain: seq<Url>, visited: set<Url>, maxRedirects: nat, target: Url) {
    && v.prompts != [] && LastAnswer(world, v).Opened?
    && var response := LastAnswer(world, v).response;
       && IsRedirection(response)
       && Redirects(world, response, v.url, chain, visited, maxRedirects, Opening(v), target)
  }

  /** The i-th hop led to the next one. */
  ghost predicate LeadsOn(world: World, visits: seq<Visit>, i: nat, maxRedirects: nat)
    requires i < |visits| - 1
  {
    var urls := Urls(visits);
    Onward(world, visits[i], urls[1..i + 1], Elements(urls[..i + 1]), maxRedirects, urls[i + 1])
  }

  predicate DistinctUrls(hops: seq<Url>) { forall i, j :: 0 <= i < j < |hops| ==> hops[i] != hops[j] }

  datatype Retrieved = Retrieved(artifact: Artifact) | Refused(error: RetrievalError)

  function Outcome(r: Retrieved): Hop {
    match r
    case Retrieved(a) => Delivered(a)
    case Refused(e) => HopFailed(e)
  }

  /**
    Everything a retrieval leaves in its trace: hops from the requested URL on, each led to
    by the answer before it and each going on only while its answers asked for it; and all
    the requests and pauses of the trace are theirs, in order.
   */
  ghost predicate Accounted(world: World, t: Trace, visits: seq<Visit>, url: Url, maxRedirects: nat) {
    && AllAuthorized(t) && (PhaseOf(t) == Idle || PhaseOf(t) == Waiting)
    && |visits| <= maxRedirects + 1 && DistinctUrls(Urls(visits)) && (visits != [] ==> visits[0].url == url)
    && Counted(visits) && (forall i :: 0 <= i < |visits| ==> Persists(world, visits[i]))
    && (forall i :: 0 <= i < |visits| - 1 ==> LeadsOn(world, visits, i, maxRedirects))
    && Paced(t) == AllPaced(visits) && Prompts(t) == AllPrompts(visits)
  }

  /** The last hop decides the retrieval. */
  ghost predicate Decides(world: World, visits: seq<Visit>, url: Url, maxRedirects: nat, limit: Option<nat>,
                          r: Retrieved) {
    && visits != []
    && var urls := Urls(visits);
       Settles(world, visits[|visits| - 1], url, urls[1..], Elements(urls), maxRedirects, limit, Outcome(r))
  }

  /** The redirect loop from the authorised first URL. */
  method FollowHops(world: World, url: Url, maxRedirects: nat, limit: Option<nat>, t0: Trace)
    returns (r: Retrieved, t: Trace, ghost visits: seq<Visit>)
    requires OnHop(world, t0, [], url, maxRedirects, [], url, {url})
    ensures t0 <= t && Accounted(world, t, visits, url, maxRedirects)
    ensures Decides(world, visits, url, maxRedirects, limit, r)
  {
    t, visits := t0, [];
    var current, chain, visited := url, [], {url};
    while true
      invariant t0 <= t && OnHop(world, t, visits, url, maxRedirects, chain, current, visited)
      decreases maxRedirects - |chain|
    {
      var hop;
      ghost var before, v := t, Visit(url, []);
      hop, t, v := Exchange(world, current, url, chain, visited, maxRedirects, limit, t);
      HopDone(world, before, t, visits, url, maxRedirects, chain, current, visited, v);
      visits := visits + [v];
      HopDecides(world, t, visits, url, maxRedirects, limit, chain, visited, hop);
      if hop.Delivered? { return Retrieved(hop.artifact), t, visits; }
      if hop.HopFailed? { return Refused(hop.error), t, visits; }
      HopNext(world, t, visits, url, maxRedirects, chain, visited, hop.target);
      visited := visited + {hop.target};
      chain := chain + [hop.target];
      current := hop.target;
    }
  }

  /**
    Retrieves one artifact.  Whatever the world does, the call ends; `visits` are the hops
    it made, each authorised before, none twice, at most `maxRedirects` after the first,
    each led to by the answer before; and the last answer decides the result.
   */
  method Retrieve(world: World, url: Url, maxRedirects: int, maxBytes: Option<int>)
    returns (r: Retrieved, t: Trace, ghost visits: seq<Visit>)
    ensures r == Refused(BadArguments) <==> maxRedirects < 0 || (maxBytes.Some? && maxBytes.value < 0)
    ensures r == Refused(BadArguments) ==> t == []
    ensures maxRedirects >= 0 ==> Accounted(world, t, visits, url, maxRedirects)
    ensures r != Refused(BadArguments) ==> [Authorize(url, world.authorize([], url))] <= t
    ensures r != Refused(BadArguments) && !world.authorize([], url) ==> r == Refused(Unauthorized) && |t| == 1
    ensures r != Refused(BadArguments) && world.authorize([], url) ==>
      maxRedirects >= 0 && Decides(world, visits, url, maxRedirects, Limit(maxBytes), r)
  {
    t, visits := [], [];
    if maxRedirects >= 0 { NothingContacted(world, url, maxRedirects, true); }
    if maxRedirects < 0 { return Refused(BadArguments), t, visits; }
    if maxBytes.Some? && maxBytes.value < 0 { return Refused(BadArguments), t, visits; }
    var accepted := world.authorize(t, url);
    t := [Authorize(url, accepted)];
    NothingContacted(world, url, maxRedirects, accepted);
    if !accepted { return Refused(Unauthorized), t, visits; }
    r, t, visits := FollowHops(world, url, maxRedirects, Limit(maxBytes), t);
    GoodArguments(world, visits, url, maxRedirects, Limit(maxBytes), r);
  }

  /** No answer of the world is blamed on the arguments. */
  lemma {:induction false} GoodArguments(world: World, visits: seq<Visit>, url: Url, maxRedirects: nat,
                                         limit: Option<nat>, r: Retrieved)
    requires Decides(world, visits, url, maxRedirects, limit, r)
    ensures r != Refused(BadArguments)
  {
  }

  /** Before the first request. */
  lemma {:induction false} NothingContacted(world: World, url: Url, maxRedirects: nat, accepted: bool)
    ensures Accounted(world, [], [], url, maxRedirects)
    ensures Accounted(world, [Authorize(url, accepted)], [], url, maxRedirects)
    ensures accepted ==> OnHop(world, [Authorize(url, accepted)], [], url, maxRedirects, [], url, {url})
  {
    var t := [Authorize(url, accepted)];
    assert t[..0] == [];
    assert Paced(t) == Paced(t[..0]) + [] && Prompts(t) == Prompts(t[..0]) + [];
    assert PhaseOf(t) == Idle && AllAuthorized(t);
    assert Accounted(world, t, [], url, maxRedirects);
    assert Urls([]) + [url] == [url] + [] == [url];
  }

  function Limit(maxBytes: Option<int>): (limit: Option<nat>)
    ensures maxBytes.None? ==> limit.None?
    ensures maxBytes.Some? && maxBytes.value >= 0 ==> limit.Some? && limit.value == maxBytes.value
  {
    if maxBytes.Some? && maxBytes.value >= 0 then Some(maxBytes.value) else None
  }

  /** About to contact `current`: the hops so far and `current` are the requested URL and the chain. */
  ghost predicate OnHop(world: World, t: Trace, visits: seq<Visit>, url: Url, maxRedirects: nat,
                        chain: seq<Url>, current: Url, visited: set<Url>) {
    && PhaseOf(t) == Idle && Authorize(current, true) in t
    && Accounted(world, t, visits, url, maxRedirects)
    && |chain| <= maxRedirects && [url] + chain == Urls(visits) + [current]
    && DistinctUrls([url] + chain) && visited == Elements([url] + chain)
    && (visits != [] ==>
          Onward(world, visits[|visits| - 1], Urls(visits)[1..], Elements(Urls(visits)), maxRedirects, current))
  }

  /** A hop is over: the hops so far are the requested URL and the chain. */
  ghost predicate Arrived(world: World, t: Trace, visits: seq<Visit>, url: Url, maxRedirects: nat,
                          chain: seq<Url>, visited: set<Url>) {
    && visits != [] && Accounted(world, t, visits, url, maxRedirects)
    && Urls(visits) == [url] + chain && Urls(visits)[1..] == chain && visited == Elements(Urls(visits))
  }

  lemma {:induction false} HopDone(world: World, t0: Trace, t: Trace, visits: seq<Visit>, url: Url, maxRedirects: nat,
                                   chain: seq<Url>, current: Url, visited: set<Url>, v: Visit)
    requires OnHop(world, t0, visits, url, maxRedirects, chain, current, visited)
    requires v.url == current && HopTrace(world, t0, t, v) && Persists(world, v)
    ensures Arrived(world, t, visits + [v], url, maxRedirects, chain, visited)
  {
    UrlsGrow(visits, v, url, chain);
    LinksGrow(world, visits, v, maxRedirects);
    StepsGrow(visits, v);
  }

  lemma {:induction false} UrlsGrow(visits: seq<Visit>, v: Visit, url: Url, chain: seq<Url>)
    requires [url] + chain == Urls(visits) + [v.url]
    ensures Urls(visits + [v]) == [url] + chain && Urls(visits + [v])[1..] == chain && |visits| == |chain|
    ensures (visits + [v])[0].url == url
  {
    assert Urls(visits + [v]) == Urls(visits) + [v.url];
    assert ([url] + chain)[1..] == chain && |[url] + chain| == |visits| + 1;
    assert (visits + [v])[0].url == Urls(visits + [v])[0];
  }

  lemma {:induction false} StepsGrow(visits: seq<Visit>, v: Visit)
    requires Counted(visits) && 1 <= |v.prompts| <= MAX_ATTEMPTS
    ensures Counted(visits + [v])
    ensures AllPaced(visits + [v]) == AllPaced(visits) + Pace(v.url)[..2 * |v.prompts| - 1]
    ensures AllPrompts(visits + [v]) == AllPrompts(visits) + v.prompts
  {
    assert (visits + [v])[..|visits|] == visits;
  }

  /** Links between hops stay when a hop is added, and the last one now leads to it. */
  lemma {:induction false} LinksGrow(world: World, visits: seq<Visit>, v: Visit, maxRedirects: nat)
    requires forall i :: 0 <= i < |visits| - 1 ==> LeadsOn(world, visits, i, maxRedirects)
    requires visits != [] ==>
      Onward(world, visits[|visits| - 1], Urls(visits)[1..], Elements(Urls(visits)), maxRedirects, v.url)
    ensures forall i :: 0 <= i < |visits| ==> LeadsOn(world, visits + [v], i, maxRedirects)
  {
    var urls, more := Urls(visits), Urls(visits + [v]);
    assert more == urls + [v.url];
    forall i | 0 <= i < |visits| ensures LeadsOn(world, visits + [v], i, maxRedirects) {
      assert more[..i + 1] == urls[..i + 1] && more[1..i + 1] == urls[1..i + 1];
      assert urls[..|visits|] == urls && urls[1..|visits|] == urls[1..];
      if i < |visits| - 1 { assert LeadsOn(world, visits, i, maxRedirects); }
    }
  }

  lemma {:induction false} HopDecides(world: World, t: Trace, visits: seq<Visit>, url: Url, maxRedirects: nat,
                                      limit: Option<nat>, chain: seq<Url>, visited: set<Url>, hop: Hop)
    requires Arrived(world, t, visits, url, maxRedirects, chain, visited)
    requires Settles(world, visits[|visits| - 1], url, chain, visited, maxRedirects, limit, hop)
    ensures hop.Delivered? ==> Decides(world, visits, url, maxRedirects, limit, Retrieved(hop.artifact))
    ensures hop.HopFailed? ==> Decides(world, visits, url, maxRedirects, limit, Refused(hop.error))
    ensures hop.Redirected? ==> Onward(world, visits[|visits| - 1], chain, visited, maxRedirects, hop.target)
  {
  }

  lemma {:induction false} HopNext(world: World, t: Trace, visits: seq<Visit>, url: Url, maxRedirects: nat,
                                   chain: seq<Url>, visited: set<Url>, target: Url)
    requires Arrived(world, t, visits, url, maxRedirects, chain, visited)
    requires PhaseOf(t) == Idle && Authorize(target, true) in t
    requires Onward(world, visits[|visits| - 1], chain, visited, maxRedirects, target)
    ensures |chain| < maxRedirects
    ensures OnHop(world, t, visits, url, maxRedirects, chain + [target], target, visited + {target})
  {
    assert [url] + (chain + [target]) == [url] + chain + [target];
  }

  // ---------------------------------------------------------------- what a finished retrieval means

  function RequestCount(t: Trace): nat {
    if t == [] then 0 else RequestCount(t[..|t| - 1]) + if t[|t| - 1].Request? then 1 else 0
  }

  /** Seconds of pause. */
  function Slept(t: Trace): nat {
    if t == [] then 0 else Slept(t[..|t| - 1]) + if t[|t| - 1].Sleep? then t[|t| - 1].seconds else 0
  }

  lemma {:induction false} CountsAppend(a: Trace, b: Trace)
    ensures RequestCount(a + b) == RequestCount(a) + RequestCount(b) && Slept(a + b) == Slept(a) + Slept(b)
  {
    if b == [] {
      assert a + b == a;
    } else {
      assert (a + b)[..|a + b| - 1] == a + b[..|b| - 1];
      CountsAppend(a, b[..|b| - 1]);
    }
  }

  /** Only requests and pauses count. */
  lemma {:induction false} CountsPaced(t: Trace)
    ensures RequestCount(Paced(t)) == RequestCount(t) && Slept(Paced(t)) == Slept(t)
  {
    if t != [] {
      var front, e := t[..|t| - 1], t[|t| - 1];
      CountsPaced(front);
      assert [e][..0] == [] && Paced(front) + [] == Paced(front);
      CountsAppend(Paced(front), [e]);
      assert RequestCount([e]) == RequestCount([e][..0]) + if e.Request? then 1 else 0;
      assert Slept([e]) == Slept([e][..0]) + if e.Sleep? then e.seconds else 0;
    }
  }

  lemma {:induction false} PaceCounts(url: Url, n: nat)
    requires n <= 2 * MAX_ATTEMPTS - 1
    ensures RequestCount(Pace(url)[..n]) == (n + 1) / 2
      && Slept(Pace(url)[..n]) == if n < 2 then 0 else if n < 4 then 1 else 3
  {
    if n > 0 {
      assert Pace(url)[..n][..n - 1] == Pace(url)[..n - 1];
      PaceCounts(url, n - 1);
    }
  }

  lemma {:induction false} HopCounts(visits: seq<Visit>)
    requires Counted(visits)
    ensures RequestCount(AllPaced(visits)) <= 3 * |visits| && Slept(AllPaced(visits)) <= 3 * |visits|
  {
    if visits != [] {
      var n := |visits| - 1;
      HopCounts(visits[..n]);
      CountsAppend(AllPaced(visits[..n]), Pace(visits[n].url)[..2 * |visits[n].prompts| - 1]);
      PaceCounts(visits[n].url, 2 * |visits[n].prompts| - 1);
    }
  }

  /** At most three requests a hop and three seconds of pause a hop. */
  lemma {:induction false} RetrievalIsBounded(world: World, t: Trace, visits: seq<Visit>, url: Url, maxRedirects: nat)
    requires Accounted(world, t, visits, url, maxRedirects)
    ensures RequestCount(t) <= 3 * (maxRedirects + 1) && Slept(t) <= 3 * (maxRedirects + 1)
  {
    CountsPaced(t);
    HopCounts(visits);
  }

  /** A world that never redirects is asked for nothing but the requested URL. */
  lemma {:induction false} OneHopWithoutRedirects(world: World, t: Trace, visits: seq<Visit>, url: Url,
                                                  maxRedirects: nat)
    requires Accounted(world, t, visits, url, maxRedirects)
    requires forall p, u :: world.send(p, u).Opened? ==> !IsRedirection(world.send(p, u).response)
    ensures |visits| <= 1
  {
    NothingLeadsOn(world, visits, maxRedirects);
  }

  lemma {:induction false} NothingLeadsOn(world: World, visits: seq<Visit>, maxRedirects: nat)
    requires forall p, u :: world.send(p, u).Opened? ==> !IsRedirection(world.send(p, u).response)
    ensures |visits| > 1 ==> !LeadsOn(world, visits, 0, maxRedirects)
  {
  }

  /** Each request comes after an accepting authorisation of its very URL. */
  lemma {:induction false} AuthorizedBefore(t: Trace, i: nat) returns (j: nat)
    requires AllAuthorized(t) && i < |t| && t[i].Request?
    ensures j < i && t[j] == Authorize(t[i].url, true)
    decreases |t|
  {
    var front := t[..|t| - 1];
    if i < |front| {
      j := AuthorizedBefore(front, i);
    } else {
      j :| 0 <= j < |front| && front[j] == Authorize(t[i].url, true);
    }
  }

  /** The phase reached at an earlier point of a disciplined trace is never broken. */
  lemma {:induction false} NeverBroken(t: Trace, k: nat)
    requires k <= |t| && PhaseOf(t) != Broken
    ensures PhaseOf(t[..k]) != Broken
    decreases |t|
  {
    if k < |t| {
      assert t[..|t| - 1][..k] == t[..k];
      NeverBroken(t[..|t| - 1], k);
    } else {
      assert t[..k] == t;
    }
  }

  /** Only the authoriser and the body are heard from while a response is open. */
  predicate Quiet(e: Event) { e.Authorize? || e.Chunk? }

  /**
    In a trace that ends with no response open, every opened response is closed exactly
    once: its close is the first event after it that is neither an authorisation nor a
    chunk, so no request, pause or other response comes between.
   */
  lemma {:induction false} OpenedIsClosed(t: Trace, i: nat) returns (j: nat)
    requires PhaseOf(t) == Idle || PhaseOf(t) == Waiting
    requires i < |t| && t[i].Open?
    ensures i < j < |t| && t[j].Close? && forall k :: i < k < j ==> Quiet(t[k])
  {
    PhaseAfter(t, i);
    assert t[..|t|] == t;
    j := i + 1;
    while j < |t| && Quiet(t[j])
      invariant i < j <= |t| && PhaseOf(t[..j]) == Holding
      invariant forall k :: i < k < j ==> Quiet(t[k])
    {
      PhaseAfter(t, j);
      j := j + 1;
    }
    PhaseAfter(t, j);
  }

  lemma {:induction false} PhaseAfter(t: Trace, k: nat)
    requires k < |t| && PhaseOf(t) != Broken
    ensures PhaseOf(t[..k + 1]) == NextPhase(PhaseOf(t[..k]), t[k]) != Broken
  {
    NeverBroken(t, k + 1);
    assert t[..k + 1][..k] == t[..k];
  }

  /** Conversely a close always has its response: the last unquiet event before it is an open. */
  lemma {:induction false} ClosedWasOpen(t: Trace, j: nat) returns (i: nat)
    requires PhaseOf(t) != Broken && j < |t| && t[j].Close?
    ensures i < j && t[i].Open? && forall k :: i < k < j ==> Quiet(t[k])
  {
    PhaseAfter(t, j);
    i := HeldSince(t, j);
  }

  lemma {:induction false} HeldSince(t: Trace, j: nat) returns (i: nat)
    requires j <= |t| && PhaseOf(t[..j]) == Holding
    ensures i < j && t[i].Open? && forall k :: i < k < j ==> Quiet(t[k])
  {
    assert j > 0 && t[..j][..j - 1] == t[..j - 1];
    if t[j - 1].Open? { i := j - 1; } else { i := HeldSince(t, j - 1); }
  }

  /**
    A retrieved artifact is exactly what the last answer sent, within the cap; its recorded
    length is absent or its length; and it came from the last hop: the last chain entry,
    or the requested URL when there was no redirect.
   */
  lemma {:induction false} RetrievedIsExact(world: World, t: Trace, visits: seq<Visit>, url: Url, maxRedirects: nat,
                                            limit: Option<nat>, a: Artifact)
    requires Accounted(world, t, visits, url, maxRedirects)
    requires Decides(world, visits, url, maxRedirects, limit, Retrieved(a))
    ensures Prompts(t) != []
    ensures
      var p := Prompts(t)[|Prompts(t)| - 1];
      && IsPrompt(p, a.url) && world.send(p, a.url).Opened?
      && a.content == Concat(world.send(p, a.url).response.chunks)
    ensures limit.Some? ==> |a.content| <= limit.value
    ensures a.observation.contentLength.None? || a.observation.contentLength == Some(|a.content|)
    ensures
      var chain := a.observation.chain;
      && a.url == a.observation.final == (if chain == [] then url else chain[|chain| - 1])
      && chain == Urls(visits)[1..] && |chain| <= maxRedirects
  {
    assert Persists(world, visits[|visits| - 1]);
    assert Urls(visits)[0] == url;
  }

  /** The artifact a response makes when nothing is wrong with it. */
  function Whole(response: Response, url: Url, requested: Url, chain: seq<Url>): Artifact {
    var content := Concat(response.chunks);
    Artifact(url, content,
             Observation(requested, url, chain, 200, if response.contentLength.Some? then Some(|content|) else None))
  }

  /** A complete 200 response within the cap whose length header, if any, denotes its true length. */
  ghost predicate IsHonest(response: Response, maxBytes: Option<nat>) {
    var received := |Concat(response.chunks)|;
    && response.status == 200 && response.identityEncoding && response.end == Complete
    && (maxBytes.Some? ==> received <= maxBytes.value)
    && (response.contentLength.Some? ==>
          received <= 9223372036854775807 && Denotes(response.contentLength.value, received))
  }

  /** An honest response makes its artifact, and nothing else makes one. */
  lemma {:induction false} MakesIffHonest(response: Response, url: Url, requested: Url, chain: seq<Url>,
                                          maxBytes: Option<nat>)
    ensures forall a :: Makes(a, response, url, requested, chain, maxBytes) <==>
      IsHonest(response, maxBytes) && a == Whole(response, url, requested, chain)
    ensures IsHonest(response, maxBytes) ==> forall e :: !Refuses(response, maxBytes, e)
  {
    if response.contentLength.Some? { LengthIff(response.contentLength.value, |Concat(response.chunks)|); }
  }

  /** Against a world that answers every request honestly, retrieval delivers the requested URL's bytes at once. */
  lemma {:induction false} HonestWorldDelivers(world: World, t: Trace, visits: seq<Visit>, url: Url, maxRedirects: nat,
                                               limit: Option<nat>, r: Retrieved)
    requires Accounted(world, t, visits, url, maxRedirects) && Decides(world, visits, url, maxRedirects, limit, r)
    requires forall p, u :: world.send(p, u).Opened? && IsHonest(world.send(p, u).response, limit)
    ensures |visits| == 1 && |visits[0].prompts| == 1
    ensures r == Retrieved(Whole(world.send(visits[0].prompts[0], url).response, url, url, []))
  {
    OneHopWithoutRedirects(world, t, visits, url, maxRedirects);
    var v := visits[0];
    assert Persists(world, v) && !AsksRetry(Answer(world, v, 0));
    assert Urls(visits)[1..] == [];
    MakesIffHonest(LastAnswer(world, v).response, url, url, [], limit);
  }

  // ---------------------------------------------------------------- worlds that answer one way

  /** Against a world whose every answer is the same failure, one request or three are made and the error is its own. */
  lemma {:induction false} SteadyFailureEnds(world: World, t: Trace, visits: seq<Visit>, url: Url, maxRedirects: nat,
                                             limit: Option<nat>, r: Retrieved, answer: Sent)
    requires Accounted(world, t, visits, url, maxRedirects) && Decides(world, visits, url, maxRedirects, limit, r)
    requires forall p, u :: world.send(p, u) == answer
    ensures answer == DecodingFailure ==> RequestCount(t) == 1 && r == Refused(ContentEncoding)
    ensures answer == OtherFailure ==> RequestCount(t) == 1 && r == Refused(TransportFailed)
    ensures answer == Unexpected ==> RequestCount(t) == 1 && r == Refused(Escaped)
    ensures answer == ProtocolError(true) ==> RequestCount(t) == 1 && r == Refused(InvalidRedirect)
    ensures answer == ProtocolError(false) ==> RequestCount(t) == 3 && Slept(t) == 3 && r == Refused(TransportFailed)
    ensures answer == TransportFailure(true) ==> RequestCount(t) == 1 && r == Refused(TlsUntrusted)
    ensures answer == TransportFailure(false) ==> RequestCount(t) == 3 && Slept(t) == 3 && r == Refused(TransportFailed)
    ensures answer.Opened? && (answer.response.status == 429 || 500 <= answer.response.status < 600) ==>
      RequestCount(t) == 3 && Slept(t) == 3 && r == Refused(HttpStatus(answer.response.status))
  {
    if !answer.Opened? || !IsRedirection(answer.response) {
      OneHopWithoutRedirects(world, t, visits, url, maxRedirects);
      var v := visits[0];
      assert Persists(world, v) && Answer(world, v, 0) == answer;
      assert AsksRetry(answer) <==> |v.prompts| == 3;
      OneVisitCounts(t, visits);
    }
  }

  lemma {:induction false} OneVisitCounts(t: Trace, visits: seq<Visit>)
    requires |visits| == 1 && Counted(visits) && Paced(t) == AllPaced(visits)
    ensures RequestCount(t) == |visits[0].prompts|
    ensures Slept(t) == if |visits[0].prompts| == 1 then 0 else if |visits[0].prompts| == 2 then 1 else 3
  {
    var pace := Pace(visits[0].url)[..2 * |visits[0].prompts| - 1];
    assert visits[..0] == [] && AllPaced(visits[..0]) == [] && [] + pace == pace;
    CountsPaced(t);
    PaceCounts(visits[0].url, 2 * |visits[0].prompts| - 1);
  }

  /** A redirect to an authorised URL is followed there, and its honest answer is delivered as its bytes. */
  lemma {:induction false} RedirectIsFollowed(world: World, t: Trace, visits: seq<Visit>, url: Url, maxRedirects: nat,
                                              limit: Option<nat>, r: Retrieved, target: Url, location: string,
                                              redirect: Response)
    requires Accounted(world, t, visits, url, maxRedirects) && Decides(world, visits, url, maxRedirects, limit, r)
    requires maxRedirects >= 1 && target != url && world.join(url, location) == Some(target)
    requires redirect.status in {301, 302, 303, 307, 308} && UsableLocation(redirect.location) == Some(location)
    requires forall p :: world.authorize(p, target) && world.send(p, url) == Opened(redirect)
    requires forall p :: world.send(p, target).Opened? && IsHonest(world.send(p, target).response, limit)
    ensures |visits| == 2 && |visits[1].prompts| == 1
    ensures r == Retrieved(Whole(world.send(visits[1].prompts[0], target).response, target, url, [target]))
  {
    var first := visits[0];
    assert Persists(world, first) && Answer(world, first, 0) == Opened(redirect) && !AsksRetry(Answer(world, first, 0));
    assert |visits| > 1 ==> LeadsOn(world, visits, 0, maxRedirects);
    assert |visits| > 1 ==> visits[1].url == target;
    if |visits| > 1 {
      var second := visits[1];
      assert Persists(world, second) && !AsksRetry(Answer(world, second, 0));
      assert |visits| > 2 ==> LeadsOn(world, visits, 1, maxRedirects);
      assert Urls(visits)[1..] == [target];
      MakesIffHonest(LastAnswer(world, second).response, target, url, [target], limit);
    }
  }
}
