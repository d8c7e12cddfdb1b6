/**
  The remote create-only artifact store: any number of clients of `put_if_absent`
  interleaved against a server that creates but never overwrites or deletes.  Requests
  may take effect late or lose their responses; an adversary chooses every response.
 */
module RemoteStore {
  import opened Prelude
  import opened ArtifactKey

  datatype StoreError = Collision | Corruption | NotFound | Authorization | Backend | OutcomeUnknown

  datatype Outcome = Stored | Reused | Failed(error: StoreError)

  /** Why the client reads back. */
  datatype Purpose = AfterSuccess | AfterDuplicate | Resolving

  /** Where a call stands: about to POST, awaiting its answer, about to GET, or returned. */
  datatype Pc =
    | Creating(attempt: nat)
    | Awaiting(attempt: nat, request: nat)
    | Reading(attempt: nat, purpose: Purpose, retries: nat)
    | Done(outcome: Outcome)

  /** One call; `waits` counts backoff in units of the configured pause. */
  datatype Client = Client(digest: Digest, content: Bytes, pc: Pc, posts: nat, gets: nat, waits: nat)

  datatype Config = Config(createAttempts: nat, readAttempts: nat, backoff: real)

  datatype Request = Request(client: nat, key: string, content: Bytes)

  /** `creators` remembers which request created an object. */
  datatype State = State(
    objects: map<string, Bytes>, creators: map<string, nat>, requests: seq<Request>, clients: seq<Client>)

  datatype Reply = Lost | Response(status: int, code: Option<string>)

  datatype Action = Serve(request: nat) | Step(client: nat, reply: Reply)

  // ---------------------------------------------------------------- response classes

  predicate IsSuccess(r: Reply) { r.Response? && 200 <= r.status <= 299 }

  predicate IsDuplicate(r: Reply) {
    r.Response? && r.code.Some? && r.code.value in {"ResourceAlreadyExists", "KeyAlreadyExists", "already_exists"}
  }

  predicate IsTransient(r: Reply) {
    r.Lost? || r.status == 408 || r.status == 429 || 500 <= r.status <= 599
  }

  function ResponseError(r: Reply): StoreError
    requires r.Response?
  {
    if r.status == 401 || r.status == 403
       || (r.code.Some? && r.code.value in {"AccessDenied", "InvalidJWT", "unauthorized"}) then Authorization
    else if r.code == Some("NoSuchKey") then NotFound
    else Backend
  }

  predicate IsIntegrity(e: StoreError) { e == Collision || e == Corruption }

  // ---------------------------------------------------------------- the protocol

  predicate ValidConfig(config: Config) {
    config.createAttempts >= 1 && config.readAttempts >= 1 && config.backoff >= 0.0
  }

  /** What a finished read-back makes of the call. */
  function AfterRead(config: Config, attempt: nat, purpose: Purpose, failure: Option<StoreError>): Pc {
    match purpose
    case AfterSuccess =>
      if failure.None? then Done(Stored)
      else Done(Failed(if IsIntegrity(failure.value) then failure.value else OutcomeUnknown))
    case AfterDuplicate =>
      if failure.None? then Done(Reused) else Done(Failed(failure.value))
    case Resolving =>
      if failure.None? then Done(Reused)
      else if failure.value == NotFound then
        if attempt < config.createAttempts then Creating(attempt + 1) else Done(Failed(OutcomeUnknown))
      else Done(Failed(if IsIntegrity(failure.value) then failure.value else OutcomeUnknown))
  }

  /** The verdict on bytes read back: digest first, then the bytes themselves. */
  function CheckContent(sha: Bytes -> Digest, c: Client, existing: Bytes, purpose: Purpose): Option<StoreError> {
    if sha(existing) != c.digest then Some(Corruption)
    else if existing != c.content then Some(if purpose == AfterDuplicate then Collision else Corruption)
    else None
  }

  /** One move of a client.  A reply the server could not honestly give changes nothing. */
  function ClientNext(sha: Bytes -> Digest, config: Config, s: State, i: nat, reply: Reply): State
    requires i < |s.clients| && IsDigest(s.clients[i].digest)
  {
    var c := s.clients[i];
    var key := CanonicalKey(c.digest);
    match c.pc
    case Creating(attempt) =>
      s.(requests := s.requests + [Request(i, key, c.content)],
         clients := s.clients[i := c.(pc := Awaiting(attempt, |s.requests|), posts := c.posts + 1)])
    case Awaiting(attempt, request) =>
      if IsSuccess(reply) && !(key in s.creators && s.creators[key] == request) then s
      else
        var next :=
          if reply.Lost? then Reading(attempt, Resolving, 0)
          else if IsSuccess(reply) then Reading(attempt, AfterSuccess, 0)
          else if IsDuplicate(reply) then Reading(attempt, AfterDuplicate, 0)
          else if IsTransient(reply) then Reading(attempt, Resolving, 0)
          else Done(Failed(ResponseError(reply)));
        s.(clients := s.clients[i := c.(pc := next)])
    case Reading(attempt, purpose, retries) =>
      if IsSuccess(reply) && key !in s.objects then s
      else
        var read := c.(gets := c.gets + 1);
        var next :=
          if IsSuccess(reply) then
            read.(pc := AfterRead(config, attempt, purpose, CheckContent(sha, c, s.objects[key], purpose)))
          else if !IsTransient(reply) then
            read.(pc := AfterRead(config, attempt, purpose, Some(ResponseError(reply))))
          else if retries + 1 < config.readAttempts then
            read.(pc := Reading(attempt, purpose, retries + 1), waits := c.waits + Pow2(retries))
          else read.(pc := AfterRead(config, attempt, purpose, Some(Backend)));
        s.(clients := s.clients[i := next])
    case Done(_) => s
  }

  /** A request issued earlier takes effect now: it creates its object unless the key is taken. */
  function ServerNext(s: State, request: nat): State
    requires request < |s.requests|
  {
    var r := s.requests[request];
    if r.key in s.objects then s
    else s.(objects := s.objects[r.key := r.content], creators := s.creators[r.key := request])
  }

  predicate ValidClient(sha: Bytes -> Digest, c: Client) {
    IsDigest(c.digest) && sha(c.content) == c.digest && c.content != []
  }

  function Next(sha: Bytes -> Digest, config: Config, s: State, a: Action): State {
    match a
    case Serve(request) => if request < |s.requests| then ServerNext(s, request) else s
    case Step(i, reply) =>
      if i < |s.clients| && IsDigest(s.clients[i].digest) then ClientNext(sha, config, s, i, reply) else s
  }

  function Run(sha: Bytes -> Digest, config: Config, s: State, schedule: seq<Action>): State {
    if schedule == [] then s
    else Next(sha, config, Run(sha, config, s, schedule[..|schedule| - 1]), schedule[|schedule| - 1])
  }

  /** Calls yet to begin, against a server that may already hold any objects. */
  predicate Initial(sha: Bytes -> Digest, s: State) {
    && s.creators == map[] && s.requests == []
    && forall c :: c in s.clients ==>
      ValidClient(sha, c) && c.pc == Creating(1) && c.posts == 0 && c.gets == 0 && c.waits == 0
  }

  // ---------------------------------------------------------------- invariant

  /** The object under a client's key, if any. */
  function Held(s: State, c: Client): Option<Bytes>
    requires IsDigest(c.digest)
  {
    var key := CanonicalKey(c.digest);
    if key in s.objects then Some(s.objects[key]) else None
  }

  /** The object under this key came from a request of client i. */
  predicate CreatedBy(s: State, key: string, i: nat) {
    key in s.creators && s.creators[key] < |s.requests| && s.requests[s.creators[key]].client == i
  }

  predicate ServerOk(s0: State, s: State) {
    && (forall k :: k in s0.objects ==> k in s.objects && s.objects[k] == s0.objects[k] && k !in s.creators)
    && (forall k :: k in s.creators ==>
          && k in s.objects && s.creators[k] < |s.requests|
          && s.requests[s.creators[k]].key == k && s.requests[s.creators[k]].content == s.objects[k])
  }

  /** The pauses before the first `retries` repetitions of a read: 1, 2, 4, ... */
  function ReadWaits(retries: nat): (w: nat)
    ensures w + 1 == Pow2(retries)
  {
    if retries == 0 then 0 else ReadWaits(retries - 1) + Pow2(retries - 1)
  }

  /** POSTs, GETs and waits spent so far, against what the position in the protocol allows. */
  predicate WithinBudget(config: Config, c: Client)
    requires ValidConfig(config)
  {
    var full := ReadWaits(config.readAttempts - 1);
    match c.pc
    case Creating(a) =>
      1 <= a <= config.createAttempts && c.posts == a - 1
      && c.gets <= (a - 1) * config.readAttempts && c.waits <= (a - 1) * full
    case Awaiting(a, _) =>
      1 <= a <= config.createAttempts && c.posts == a
      && c.gets <= (a - 1) * config.readAttempts && c.waits <= (a - 1) * full
    case Reading(a, _, k) =>
      1 <= a <= config.createAttempts && c.posts == a && k < config.readAttempts
      && c.gets <= (a - 1) * config.readAttempts + k && c.waits <= (a - 1) * full + ReadWaits(k)
    case Done(_) =>
      c.posts <= config.createAttempts
      && c.gets <= config.createAttempts * config.readAttempts && c.waits <= config.createAttempts * full
  }

  predicate ClientOk(sha: Bytes -> Digest, config: Config, s: State, i: nat)
    requires i < |s.clients| && ValidConfig(config)
  {
    var c := s.clients[i];
    && ValidClient(sha, c) && WithinBudget(config, c)
    && (c.pc.Awaiting? ==> c.pc.request < |s.requests| && s.requests[c.pc.request].client == i)
    && (c.pc.Reading? && c.pc.purpose == AfterSuccess ==> CreatedBy(s, CanonicalKey(c.digest), i))
    && (c.pc == Done(Stored) ==> CreatedBy(s, CanonicalKey(c.digest), i))
    && (c.pc == Done(Stored) || c.pc == Done(Reused) ==> Held(s, c) == Some(c.content))
    && (c.pc == Done(Failed(Collision)) ==>
          Held(s, c).Some? && Held(s, c).value != c.content && sha(Held(s, c).value) == sha(c.content))
    && (c.pc == Done(Failed(Corruption)) ==> Held(s, c).Some? && Held(s, c).value != c.content)
  }

  predicate Inv(sha: Bytes -> Digest, config: Config, s0: State, s: State)
    requires ValidConfig(config)
  {
    && ServerOk(s0, s) && |s.clients| == |s0.clients|
    && (forall i :: 0 <= i < |s.clients| ==>
          ClientOk(sha, config, s, i) && s.clients[i].digest == s0.clients[i].digest
            && s.clients[i].content == s0.clients[i].content)
  }

  /** Objects, their creators and the requests are only ever added to. */
  predicate Grows(s: State, t: State) {
    && (forall k :: k in s.objects ==> k in t.objects && t.objects[k] == s.objects[k])
    && (forall k :: k in s.creators ==> k in t.creators && t.creators[k] == s.creators[k])
    && s.requests <= t.requests
  }

  lemma {:induction false} OtherClientFrame(sha: Bytes -> Digest, config: Config, s: State, t: State, j: nat)
    requires ValidConfig(config) && j < |s.clients| && j < |t.clients| && t.clients[j] == s.clients[j]
    requires ClientOk(sha, config, s, j) && Grows(s, t)
    ensures ClientOk(sha, config, t, j)
  {
  }

  lemma {:induction false} Distribute(a: nat, m: nat)
    requires a >= 1
    ensures a * m == (a - 1) * m + m
    ensures forall c: nat :: a <= c ==> a * m <= c * m
  {
    forall c: nat | a <= c ensures a * m <= c * m {
      assert c * m == a * m + (c - a) * m;
    }
  }

  lemma {:induction false} FinishedReadBudget(config: Config, c: Client, d: Client, failure: Option<StoreError>)
    requires ValidConfig(config) && c.pc.Reading? && WithinBudget(config, c)
    requires d == c.(gets := c.gets + 1, pc := AfterRead(config, c.pc.attempt, c.pc.purpose, failure))
    ensures WithinBudget(config, d)
  {
    var a, full := c.pc.attempt, ReadWaits(config.readAttempts - 1);
    PowMonotone(c.pc.retries, config.readAttempts - 1);
    Distribute(a, config.readAttempts);
    Distribute(a, full);
  }

  /** A client's own move, apart from a new request, changes nothing but the client. */
  predicate OnlyClient(s: State, t: State, i: nat)
    requires i < |s.clients|
  {
    && |t.clients| == |s.clients| && t == s.(clients := s.clients[i := t.clients[i]])
    && t.clients[i].digest == s.clients[i].digest && t.clients[i].content == s.clients[i].content
  }

  lemma {:induction false} CreateMove(sha: Bytes -> Digest, config: Config, s: State, i: nat, reply: Reply)
    requires ValidConfig(config) && i < |s.clients| && ClientOk(sha, config, s, i)
    requires s.clients[i].pc.Creating? || s.clients[i].pc.Done?
    ensures
      var t := ClientNext(sha, config, s, i, reply);
      ClientOk(sha, config, t, i) && OnlyClient(s, t.(requests := s.requests), i) && s.requests <= t.requests
  {
  }

  lemma {:induction false} AwaitMove(sha: Bytes -> Digest, config: Config, s: State, i: nat, reply: Reply)
    requires ValidConfig(config) && i < |s.clients| && ClientOk(sha, config, s, i) && s.clients[i].pc.Awaiting?
    ensures
      var t := ClientNext(sha, config, s, i, reply);
      ClientOk(sha, config, t, i) && OnlyClient(s, t, i)
  {
    var a := s.clients[i].pc.attempt;
    Distribute(a, config.readAttempts);
    Distribute(a, ReadWaits(config.readAttempts - 1));
  }

  lemma {:induction false} FinishRead(sha: Bytes -> Digest, config: Config, s: State, t: State, i: nat,
                                      failure: Option<StoreError>)
    requires ValidConfig(config) && i < |s.clients| && ClientOk(sha, config, s, i) && s.clients[i].pc.Reading?
    requires OnlyClient(s, t, i)
    requires
      var c := s.clients[i];
      && t.clients[i] == c.(gets := c.gets + 1, pc := AfterRead(config, c.pc.attempt, c.pc.purpose, failure))
      && (failure.None? ==> Held(s, c) == Some(c.content))
      && (failure == Some(Collision) ==>
            Held(s, c).Some? && Held(s, c).value != c.content && sha(Held(s, c).value) == sha(c.content))
      && (failure == Some(Corruption) ==> Held(s, c).Some? && Held(s, c).value != c.content)
    ensures ClientOk(sha, config, t, i)
  {
    FinishedReadBudget(config, s.clients[i], t.clients[i], failure);
  }

  lemma {:induction false} ReadMove(sha: Bytes -> Digest, config: Config, s: State, i: nat, reply: Reply)
    requires ValidConfig(config) && i < |s.clients| && ClientOk(sha, config, s, i) && s.clients[i].pc.Reading?
    ensures
      var t := ClientNext(sha, config, s, i, reply);
      ClientOk(sha, config, t, i) && OnlyClient(s, t, i)
  {
    var c, t := s.clients[i], ClientNext(sha, config, s, i, reply);
    var key := CanonicalKey(c.digest);
    if IsSuccess(reply) {
      if key in s.objects {
        FinishRead(sha, config, s, t, i, CheckContent(sha, c, s.objects[key], c.pc.purpose));
      }
    } else if !IsTransient(reply) {
      FinishRead(sha, config, s, t, i, Some(ResponseError(reply)));
    } else if c.pc.retries + 1 >= config.readAttempts {
      FinishRead(sha, config, s, t, i, Some(Backend));
    }
  }

  lemma {:induction false} OwnMove(sha: Bytes -> Digest, config: Config, s: State, i: nat, reply: Reply)
    requires ValidConfig(config) && i < |s.clients| && ClientOk(sha, config, s, i)
    ensures
      var t := ClientNext(sha, config, s, i, reply);
      ClientOk(sha, config, t, i) && OnlyClient(s, t.(requests := s.requests), i) && s.requests <= t.requests
  {
    match s.clients[i].pc
    case Awaiting(_, _) => AwaitMove(sha, config, s, i, reply);
    case Reading(_, _, _) => ReadMove(sha, config, s, i, reply);
    case _ => CreateMove(sha, config, s, i, reply);
  }

  /** Objects and requests are only added to, each object by the request recorded for it. */
  lemma {:induction false} ServerKeeps(sha: Bytes -> Digest, config: Config, s0: State, s: State, a: Action)
    requires ValidConfig(config) && Inv(sha, config, s0, s)
    ensures
      var t := Next(sha, config, s, a);
      ServerOk(s0, t) && Grows(s, t) && |t.clients| == |s.clients|
  {
    if a.Step? && a.client < |s.clients| {
      assert ClientOk(sha, config, s, a.client);
      OwnMove(sha, config, s, a.client, a.reply);
    }
  }

  lemma {:induction false} StepKeeps(sha: Bytes -> Digest, config: Config, s0: State, s: State, a: Action)
    requires ValidConfig(config) && Inv(sha, config, s0, s)
    ensures Inv(sha, config, s0, Next(sha, config, s, a)) && Grows(s, Next(sha, config, s, a))
  {
    var t := Next(sha, config, s, a);
    ServerKeeps(sha, config, s0, s, a);
    forall j | 0 <= j < |t.clients|
      ensures ClientOk(sha, config, t, j)
      ensures t.clients[j].digest == s0.clients[j].digest && t.clients[j].content == s0.clients[j].content
    {
      assert ClientOk(sha, config, s, j);
      if a.Step? && a.client == j {
        OwnMove(sha, config, s, j, a.reply);
      } else {
        OthersMove(sha, config, s, j, a);
        OtherClientFrame(sha, config, s, t, j);
      }
    }
  }

  lemma {:induction false} RunKeeps(sha: Bytes -> Digest, config: Config, s0: State, schedule: seq<Action>)
    requires ValidConfig(config) && Initial(sha, s0)
    ensures Inv(sha, config, s0, Run(sha, config, s0, schedule))
  {
    if schedule == [] {
      forall i | 0 <= i < |s0.clients| ensures ClientOk(sha, config, s0, i) { assert s0.clients[i] in s0.clients; }
    } else {
      var before := schedule[..|schedule| - 1];
      RunKeeps(sha, config, s0, before);
      StepKeeps(sha, config, s0, Run(sha, config, s0, before), schedule[|schedule| - 1]);
    }
  }

  // ---------------------------------------------------------------- what every interleaving guarantees

  lemma {:induction false} RunSplits(sha: Bytes -> Digest, config: Config, s: State, a: seq<Action>, b: seq<Action>)
    ensures Run(sha, config, s, a + b) == Run(sha, config, Run(sha, config, s, a), b)
  {
    if b == [] {
      assert a + b == a;
    } else {
      RunSplits(sha, config, s, a, b[..|b| - 1]);
      assert (a + b)[..|a + b| - 1] == a + b[..|b| - 1];
    }
  }

  lemma {:induction false} RunGrows(sha: Bytes -> Digest, config: Config, s0: State, s: State, b: seq<Action>)
    requires ValidConfig(config) && Inv(sha, config, s0, s)
    ensures Inv(sha, config, s0, Run(sha, config, s, b)) && Grows(s, Run(sha, config, s, b))
  {
    if b != [] {
      RunGrows(sha, config, s0, s, b[..|b| - 1]);
      StepKeeps(sha, config, s0, Run(sha, config, s, b[..|b| - 1]), b[|b| - 1]);
    }
  }

  /** No existing object is ever changed or removed, from any point of any run to any later point. */
  lemma {:induction false} ObjectsNeverChange(sha: Bytes -> Digest, config: Config, s0: State, a: seq<Action>,
                                              b: seq<Action>)
    requires ValidConfig(config) && Initial(sha, s0)
    ensures
      var s, t := Run(sha, config, s0, a), Run(sha, config, s0, a + b);
      forall k :: k in s.objects ==> k in t.objects && t.objects[k] == s.objects[k]
  {
    RunSplits(sha, config, s0, a, b);
    RunKeeps(sha, config, s0, a);
    RunGrows(sha, config, s0, Run(sha, config, s0, a), b);
  }

  predicate Returned(c: Client, outcome: Outcome) { c.pc == Done(outcome) }

  /**
    Over all interleavings, lost responses, late effects and transient errors: a call that
    returns normally leaves its canonical key holding exactly its payload; per key at most
    one call returns STORED, and none when the key was taken before; and a reported
    collision is a genuine SHA-256 collision with the stored object.
   */
  lemma {:induction false} PutIsSafe(sha: Bytes -> Digest, config: Config, s0: State, schedule: seq<Action>)
    requires ValidConfig(config) && Initial(sha, s0)
    ensures
      var s := Run(sha, config, s0, schedule);
      && |s.clients| == |s0.clients|
      && forall i :: 0 <= i < |s.clients| ==>
        var c := s.clients[i];
        && c.digest == s0.clients[i].digest && c.content == s0.clients[i].content && IsDigest(c.digest)
        && (Returned(c, Stored) || Returned(c, Reused) ==> Held(s, c) == Some(c.content))
        && (Returned(c, Stored) ==>
              && CanonicalKey(c.digest) !in s0.objects
              && forall j :: 0 <= j < |s.clients| && j != i && s.clients[j].digest == c.digest ==>
                 !Returned(s.clients[j], Stored))
        && (Returned(c, Failed(Collision)) ==>
              Held(s, c).Some? && Held(s, c).value != c.content && sha(Held(s, c).value) == sha(c.content))
        && (Returned(c, Failed(Corruption)) ==> Held(s, c).Some? && Held(s, c).value != c.content)
  {
    RunKeeps(sha, config, s0, schedule);
    var s := Run(sha, config, s0, schedule);
    forall i | 0 <= i < |s.clients| ensures ClientOk(sha, config, s, i) {}
    forall i, j | 0 <= i < |s.clients| && 0 <= j < |s.clients| && j != i && s.clients[j].digest == s.clients[i].digest
               && Returned(s.clients[i], Stored)
      ensures !Returned(s.clients[j], Stored)
    {
      assert ClientOk(sha, config, s, i) && ClientOk(sha, config, s, j);
      assert CreatedBy(s, CanonicalKey(s.clients[i].digest), i);
    }
  }

  /** Seconds a call has slept. */
  function Slept(config: Config, c: Client): real { config.backoff * (c.waits as real) }

  /** The replies a schedule gives to client i, in order. */
  function RepliesTo(schedule: seq<Action>, i: nat): seq<Reply> {
    if schedule == [] then []
    else
      var last := schedule[|schedule| - 1];
      RepliesTo(schedule[..|schedule| - 1], i) + if last.Step? && last.client == i then [last.reply] else []
  }

  /** The client n transient failures into the read-back it is about to begin. */
  function AfterFailures(config: Config, c: Client, n: nat): Client
    requires c.pc.Reading? && n <= config.readAttempts && config.readAttempts >= 1
  {
    if n < config.readAttempts then
      c.(pc := Reading(c.pc.attempt, c.pc.purpose, n), gets := c.gets + n, waits := c.waits + ReadWaits(n))
    else
      c.(pc := AfterRead(config, c.pc.attempt, c.pc.purpose, Some(Backend)), gets := c.gets + n,
         waits := c.waits + ReadWaits(n - 1))
  }

  lemma {:induction false} OneMoreFailure(sha: Bytes -> Digest, config: Config, s: State, i: nat, reply: Reply,
                                          c: Client, n: nat)
    requires i < |s.clients| && IsDigest(s.clients[i].digest) && IsTransient(reply)
    requires c.pc.Reading? && n < config.readAttempts && s.clients[i] == AfterFailures(config, c, n)
    ensures
      var t := ClientNext(sha, config, s, i, reply);
      i < |t.clients| && t.clients[i] == AfterFailures(config, c, n + 1)
  {
    assert Pow2(n + 1) == 2 * Pow2(n);
  }

  lemma {:induction false} OthersMove(sha: Bytes -> Digest, config: Config, s: State, i: nat, a: Action)
    requires i < |s.clients| && !(a.Step? && a.client == i)
    ensures
      var t := Next(sha, config, s, a);
      i < |t.clients| && t.clients[i] == s.clients[i]
  {
  }

  /**
    One read-back under transient failures, whoever else moves meanwhile: n failures cost
    n GETs and the pauses 1, 2, 4, ... before the next attempt, 2^n - 1 in all; the last
    attempt's failure costs no pause and ends the read-back as a backend error.
   */
  lemma {:induction false} ReadBackWaits(sha: Bytes -> Digest, config: Config, s: State, i: nat, schedule: seq<Action>)
    requires i < |s.clients| && IsDigest(s.clients[i].digest) && config.readAttempts >= 1
    requires s.clients[i].pc.Reading? && s.clients[i].pc.retries == 0
    requires |RepliesTo(schedule, i)| <= config.readAttempts
    requires forall r :: r in RepliesTo(schedule, i) ==> IsTransient(r)
    ensures
      var t := Run(sha, config, s, schedule);
      i < |t.clients| && t.clients[i] == AfterFailures(config, s.clients[i], |RepliesTo(schedule, i)|)
  {
    if schedule != [] {
      var before, last := schedule[..|schedule| - 1], schedule[|schedule| - 1];
      var own := RepliesTo(before, i);
      forall r | r in own ensures IsTransient(r) { assert r in RepliesTo(schedule, i); }
      ReadBackWaits(sha, config, s, i, before);
      var m := Run(sha, config, s, before);
      if last.Step? && last.client == i {
        assert last.reply in own + [last.reply];
        OneMoreFailure(sha, config, m, i, last.reply, s.clients[i], |own|);
      } else {
        OthersMove(sha, config, m, i, last);
      }
    }
  }

  /**
    At every point of every run a call has sent at most create_attempts POSTs and
    create_attempts * read_attempts GETs, and has slept at most
    create_attempts * b * (2^(read_attempts - 1) - 1) seconds.
   */
  lemma {:induction false} PutIsBounded(sha: Bytes -> Digest, config: Config, s0: State, schedule: seq<Action>, i: nat)
    requires ValidConfig(config) && Initial(sha, s0) && i < |s0.clients|
    ensures
      var s := Run(sha, config, s0, schedule);
      && i < |s.clients|
      && s.clients[i].posts <= config.createAttempts
      && s.clients[i].gets <= config.createAttempts * config.readAttempts
      && Slept(config, s.clients[i]) <=
           (config.createAttempts as real) * config.backoff * ((Pow2(config.readAttempts - 1) - 1) as real)
  {
    RunKeeps(sha, config, s0, schedule);
    var s := Run(sha, config, s0, schedule);
    assert ClientOk(sha, config, s, i);
    BudgetTotal(config, s.clients[i]);
    SleptTotal(config, s.clients[i]);
  }

  lemma {:induction false} SleptTotal(config: Config, c: Client)
    requires ValidConfig(config) && c.waits <= config.createAttempts * ReadWaits(config.readAttempts - 1)
    ensures Slept(config, c) <=
      (config.createAttempts as real) * config.backoff * ((Pow2(config.readAttempts - 1) - 1) as real)
  {
    RealProduct(config.backoff, c.waits, config.createAttempts, ReadWaits(config.readAttempts - 1));
  }

  lemma {:induction false} BudgetTotal(config: Config, c: Client)
    requires ValidConfig(config) && WithinBudget(config, c)
    ensures c.posts <= config.createAttempts
    ensures c.gets <= config.createAttempts * config.readAttempts
    ensures c.waits <= config.createAttempts * ReadWaits(config.readAttempts - 1)
  {
    if !c.pc.Done? {
      var a, full := c.pc.attempt, ReadWaits(config.readAttempts - 1);
      Distribute(a, config.readAttempts);
      Distribute(a, full);
      if c.pc.Reading? { PowMonotone(c.pc.retries, config.readAttempts - 1); }
    }
  }

  lemma {:induction false} RealProduct(b: real, waits: nat, n: nat, m: nat)
    requires b >= 0.0 && waits <= n * m
    ensures b * (waits as real) <= (n as real) * b * (m as real)
  {
    assert (n * m) as real == (n as real) * (m as real);
    assert b * (waits as real) <= b * ((n as real) * (m as real));
  }

  // ---------------------------------------------------------------- termination

  predicate PcOk(config: Config, pc: Pc) {
    && (!pc.Done? ==> 1 <= pc.attempt <= config.createAttempts)
    && (pc.Reading? ==> pc.retries < config.readAttempts)
  }

  /** Moves a call may still make. */
  function Fuel(config: Config, pc: Pc): nat
    requires PcOk(config, pc)
  {
    var round := config.readAttempts + 2;
    match pc
    case Creating(a) => (config.createAttempts - a) * round + round
    case Awaiting(a, _) => (config.createAttempts - a) * round + round - 1
    case Reading(a, _, k) => (config.createAttempts - a) * round + config.readAttempts - k
    case Done(_) => 0
  }

  /** An honest reply is one the server could give at this point; a lost response always is. */
  predicate Honest(s: State, i: nat, reply: Reply)
    requires i < |s.clients| && IsDigest(s.clients[i].digest)
  {
    var c := s.clients[i];
    var key := CanonicalKey(c.digest);
    && (c.pc.Awaiting? && IsSuccess(reply) ==> key in s.creators && s.creators[key] == c.pc.request)
    && (c.pc.Reading? && IsSuccess(reply) ==> key in s.objects)
  }

  /** Where a move may take an unfinished call. */
  predicate Follows(config: Config, from: Pc, to: Pc) {
    match from
    case Creating(a) => to.Awaiting? && to.attempt == a
    case Awaiting(a, _) => to.Done? || (to.Reading? && to.attempt == a && to.retries == 0)
    case Reading(a, _, k) =>
      to.Done? || (to.Reading? && to.attempt == a && to.retries == k + 1) || to == Creating(a + 1)
    case Done(_) => false
  }

  lemma {:induction false} FollowingUsesFuel(config: Config, from: Pc, to: Pc)
    requires PcOk(config, from) && PcOk(config, to) && Follows(config, from, to)
    ensures Fuel(config, to) < Fuel(config, from)
  {
    var left, round := config.createAttempts - from.attempt, config.readAttempts + 2;
    assert left * round >= 0;
    if to.Creating? {
      Distribute(left, round);
      assert config.createAttempts - to.attempt == left - 1;
    }
  }

  lemma {:induction false} FuelTotal(config: Config, pc: Pc)
    requires PcOk(config, pc)
    ensures Fuel(config, pc) <= config.createAttempts * (config.readAttempts + 2)
  {
    if !pc.Done? { Distribute(config.createAttempts - pc.attempt + 1, config.readAttempts + 2); }
  }

  /** Every move of an unfinished call uses fuel. */
  lemma {:induction false} EveryMoveUsesFuel(sha: Bytes -> Digest, config: Config, s: State, i: nat, reply: Reply)
    requires ValidConfig(config) && i < |s.clients| && ClientOk(sha, config, s, i)
    requires Honest(s, i, reply) && !s.clients[i].pc.Done?
    ensures
      var t := ClientNext(sha, config, s, i, reply);
      && i < |t.clients| && PcOk(config, t.clients[i].pc)
      && Fuel(config, t.clients[i].pc) < Fuel(config, s.clients[i].pc)
  {
    OwnMove(sha, config, s, i, reply);
    var t := ClientNext(sha, config, s, i, reply);
    assert ClientOk(sha, config, t, i);
    MoveFollows(sha, config, s, i, reply);
    FollowingUsesFuel(config, s.clients[i].pc, t.clients[i].pc);
  }

  lemma {:induction false} MoveFollows(sha: Bytes -> Digest, config: Config, s: State, i: nat, reply: Reply)
    requires ValidConfig(config) && i < |s.clients| && ClientOk(sha, config, s, i)
    requires Honest(s, i, reply) && !s.clients[i].pc.Done?
    ensures
      var t := ClientNext(sha, config, s, i, reply);
      i < |t.clients| && Follows(config, s.clients[i].pc, t.clients[i].pc)
  {
  }

  /** How often client i moved while unfinished, and the fuel left, over a schedule of honest replies. */
  ghost predicate HonestRun(sha: Bytes -> Digest, config: Config, s0: State, schedule: seq<Action>) {
    forall n :: 0 <= n < |schedule| && schedule[n].Step? ==>
      var s := Run(sha, config, s0, schedule[..n]);
      schedule[n].client < |s.clients| && IsDigest(s.clients[schedule[n].client].digest)
      && Honest(s, schedule[n].client, schedule[n].reply)
  }

  ghost function Moves(sha: Bytes -> Digest, config: Config, s0: State, schedule: seq<Action>, i: nat): nat {
    if schedule == [] then 0
    else
      var before, last := schedule[..|schedule| - 1], schedule[|schedule| - 1];
      var s := Run(sha, config, s0, before);
      Moves(sha, config, s0, before, i)
      + if last.Step? && last.client == i && i < |s.clients| && !s.clients[i].pc.Done? then 1 else 0
  }

  /** However the others are scheduled, a call makes a bounded number of moves before it has returned. */
  lemma {:induction false} PutTerminates(sha: Bytes -> Digest, config: Config, s0: State, schedule: seq<Action>, i: nat)
    requires ValidConfig(config) && Initial(sha, s0) && i < |s0.clients| && HonestRun(sha, config, s0, schedule)
    ensures
      var s := Run(sha, config, s0, schedule);
      && i < |s.clients| && PcOk(config, s.clients[i].pc)
      && Moves(sha, config, s0, schedule, i) + Fuel(config, s.clients[i].pc)
         <= config.createAttempts * (config.readAttempts + 2)
  {
    RunKeeps(sha, config, s0, schedule);
    assert ClientOk(sha, config, Run(sha, config, s0, schedule), i);
    if schedule == [] {
      FuelTotal(config, s0.clients[i].pc);
    } else {
      var before, last := schedule[..|schedule| - 1], schedule[|schedule| - 1];
      forall n | 0 <= n < |before| ensures schedule[n] == before[n] && schedule[..n] == before[..n] {}
      PutTerminates(sha, config, s0, before, i);
      RunKeeps(sha, config, s0, before);
      var s := Run(sha, config, s0, before);
      assert ClientOk(sha, config, s, i);
      if last.Step? && last.client == i {
        if !s.clients[i].pc.Done? { EveryMoveUsesFuel(sha, config, s, i, last.reply); }
      } else {
        OthersMove(sha, config, s, i, last);
      }
    }
  }
}
