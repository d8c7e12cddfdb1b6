/**
  How calls of the remote `put_if_absent` end: for any interleaving with other clients and
  any late effects, the replies a call gets and the object under its key decide whether it
  returns STORED or REUSED, posts again, or fails and how.
 */
module RemoteProgress {
  import opened Prelude
  import opened ArtifactKey
  import opened RemoteStore

  // ---------------------------------------------------------------- the replies, by what they are

  predicate Accepted(r: Reply) { r.Response? && 200 <= r.status < 300 }

  predicate AlreadyThere(r: Reply) {
    && r.Response? && !Accepted(r)
    && (r.code == Some("ResourceAlreadyExists") || r.code == Some("KeyAlreadyExists")
          || r.code == Some("already_exists"))
  }

  predicate Transient(r: Reply) {
    r == Lost || (r.Response? && (r.status == 408 || r.status == 429 || 500 <= r.status < 600))
  }

  /** No verdict on the upload: it may or may not have taken effect. */
  predicate Ambiguous(r: Reply) { Transient(r) && !AlreadyThere(r) }

  predicate Denied(r: Reply) {
    && r.Response? && !Accepted(r) && !Transient(r)
    && (r.status == 401 || r.status == 403 || r.code == Some("AccessDenied") || r.code == Some("InvalidJWT")
        || r.code == Some("unauthorized"))
  }

  predicate Absent(r: Reply) {
    r.Response? && !Accepted(r) && !Transient(r) && !Denied(r) && r.code == Some("NoSuchKey")
  }

  /** The error a refusal that is not transient stands for. */
  function RefusalError(r: Reply): StoreError {
    if Denied(r) then Authorization else if Absent(r) then NotFound else Backend
  }

  predicate AllTransient(replies: seq<Reply>) { forall k :: 0 <= k < |replies| ==> Transient(replies[k]) }

  // ---------------------------------------------------------------- requests carry their client's payload

  ghost predicate RequestsOk(s: State) {
    forall r :: 0 <= r < |s.requests| ==>
      && s.requests[r].client < |s.clients| && IsDigest(s.clients[s.requests[r].client].digest)
      && s.requests[r].key == CanonicalKey(s.clients[s.requests[r].client].digest)
      && s.requests[r].content == s.clients[s.requests[r].client].content
  }

  lemma {:induction false} RequestsStep(sha: Bytes -> Digest, config: Config, s: State, a: Action)
    requires RequestsOk(s)
    ensures RequestsOk(Next(sha, config, s, a))
  {
  }

  lemma {:induction false} RequestsKeep(sha: Bytes -> Digest, config: Config, s0: State, schedule: seq<Action>)
    requires Initial(sha, s0)
    ensures RequestsOk(Run(sha, config, s0, schedule))
  {
    if schedule != [] {
      var before := schedule[..|schedule| - 1];
      RequestsKeep(sha, config, s0, before);
      RequestsStep(sha, config, Run(sha, config, s0, before), schedule[|schedule| - 1]);
    }
  }

  // ---------------------------------------------------------------- one reply at a time

  /** A reachable state: the invariants, and a client in it. */
  ghost predicate At(sha: Bytes -> Digest, config: Config, s0: State, s: State, i: nat) {
    ValidConfig(config) && Inv(sha, config, s0, s) && RequestsOk(s) && i < |s.clients| && IsDigest(s.clients[i].digest)
  }

  lemma {:induction false} AtKeeps(sha: Bytes -> Digest, config: Config, s0: State, s: State, i: nat,
                                   schedule: seq<Action>)
    requires At(sha, config, s0, s, i)
    ensures At(sha, config, s0, Run(sha, config, s, schedule), i) && Grows(s, Run(sha, config, s, schedule))
    ensures Run(sha, config, s, schedule).clients[i].content == s.clients[i].content
    ensures Run(sha, config, s, schedule).clients[i].digest == s.clients[i].digest
  {
    RunGrows(sha, config, s0, s, schedule);
    RequestsRun(sha, config, s, schedule);
    assert ClientOk(sha, config, Run(sha, config, s, schedule), i);
  }

  lemma {:induction false} RequestsRun(sha: Bytes -> Digest, config: Config, s: State, schedule: seq<Action>)
    requires RequestsOk(s)
    ensures RequestsOk(Run(sha, config, s, schedule))
  {
    if schedule != [] {
      var before := schedule[..|schedule| - 1];
      RequestsRun(sha, config, s, before);
      RequestsStep(sha, config, Run(sha, config, s, before), schedule[|schedule| - 1]);
    }
  }

  /** Without a reply of its own a client stays as it is. */
  lemma {:induction false} Stays(sha: Bytes -> Digest, config: Config, s: State, i: nat, schedule: seq<Action>)
    requires i < |s.clients| && RepliesTo(schedule, i) == []
    ensures
      var t := Run(sha, config, s, schedule);
      i < |t.clients| && t.clients[i] == s.clients[i]
  {
    if schedule != [] {
      var before, last := schedule[..|schedule| - 1], schedule[|schedule| - 1];
      Stays(sha, config, s, i, before);
      OthersMove(sha, config, Run(sha, config, s, before), i, last);
    }
  }

  lemma {:induction false} RepliesMore(schedule: seq<Action>, a: Action, i: nat)
    ensures RepliesTo(schedule + [a], i) == RepliesTo(schedule, i) + if a.Step? && a.client == i then [a.reply] else []
  {
    assert (schedule + [a])[..|schedule|] == schedule;
  }

  lemma {:induction false} RepliesJoin(a: seq<Action>, b: seq<Action>, i: nat)
    ensures RepliesTo(a + b, i) == RepliesTo(a, i) + RepliesTo(b, i)
  {
    if b == [] {
      assert a + b == a;
    } else {
      var front, last := b[..|b| - 1], b[|b| - 1];
      assert b == front + [last] && a + b == a + front + [last];
      RepliesJoin(a, front, i);
      RepliesMore(a + front, last, i);
      RepliesMore(front, last, i);
    }
  }

  ghost predicate EndsWithOwn(schedule: seq<Action>, i: nat) {
    schedule != [] && schedule[|schedule| - 1].Step? && schedule[|schedule| - 1].client == i
  }

  lemma {:induction false} CutAfter(schedule: seq<Action>, i: nat, k: nat) returns (a: seq<Action>, b: seq<Action>)
    requires k <= |RepliesTo(schedule, i)|
    ensures schedule == a + b && |RepliesTo(a, i)| == k && (k > 0 ==> EndsWithOwn(a, i))
  {
    if k == |RepliesTo(schedule, i)| && (k == 0 || EndsWithOwn(schedule, i)) {
      a, b := schedule, [];
    } else {
      var front, last := schedule[..|schedule| - 1], schedule[|schedule| - 1];
      assert schedule == front + [last];
      a, b := CutAfter(front, i, k);
      Assoc(a, b, [last]);
      b := b + [last];
    }
  }

  /** The point of a schedule right after client i's k-th reply. */
  lemma {:induction false} After(schedule: seq<Action>, i: nat, k: nat) returns (n: nat)
    requires k <= |RepliesTo(schedule, i)|
    ensures n <= |schedule|
    ensures RepliesTo(schedule[..n], i) == RepliesTo(schedule, i)[..k]
    ensures RepliesTo(schedule[n..], i) == RepliesTo(schedule, i)[k..]
    ensures k > 0 ==> n > 0 && schedule[n - 1].Step? && schedule[n - 1].client == i
  {
    var a, b := CutAfter(schedule, i, k);
    n := |a|;
    assert schedule[..n] == a && schedule[n..] == b;
    RepliesJoin(a, b, i);
  }

  lemma {:induction false} RunOn(sha: Bytes -> Digest, config: Config, s: State, schedule: seq<Action>, n: nat, k: nat)
    requires n + k <= |schedule|
    ensures Run(sha, config, Run(sha, config, s, schedule[..n]), schedule[n..][..k])
      == Run(sha, config, s, schedule[..n + k])
  {
    assert schedule[..n + k] == schedule[..n] + schedule[n..][..k];
    RunSplits(sha, config, s, schedule[..n], schedule[n..][..k]);
  }

  lemma {:induction false} HonestSplits(sha: Bytes -> Digest, config: Config, s: State, schedule: seq<Action>, n: nat)
    requires HonestRun(sha, config, s, schedule) && n <= |schedule|
    ensures HonestRun(sha, config, s, schedule[..n])
    ensures HonestRun(sha, config, Run(sha, config, s, schedule[..n]), schedule[n..])
    ensures Run(sha, config, Run(sha, config, s, schedule[..n]), schedule[n..]) == Run(sha, config, s, schedule)
  {
    assert schedule == schedule[..n] + schedule[n..];
    RunSplits(sha, config, s, schedule[..n], schedule[n..]);
    HonestHead(sha, config, s, schedule, n);
    HonestTail(sha, config, s, schedule, n);
  }

  lemma {:induction false} HonestHead(sha: Bytes -> Digest, config: Config, s: State, schedule: seq<Action>, n: nat)
    requires HonestRun(sha, config, s, schedule) && n <= |schedule|
    ensures HonestRun(sha, config, s, schedule[..n])
  {
    var a := schedule[..n];
    forall k | 0 <= k < |a| && a[k].Step?
      ensures
        var t := Run(sha, config, s, a[..k]);
        a[k].client < |t.clients| && IsDigest(t.clients[a[k].client].digest) && Honest(t, a[k].client, a[k].reply)
    {
      assert schedule[k] == a[k] && schedule[..k] == a[..k];
    }
  }

  lemma {:induction false} HonestTail(sha: Bytes -> Digest, config: Config, s: State, schedule: seq<Action>, n: nat)
    requires HonestRun(sha, config, s, schedule) && n <= |schedule|
    ensures HonestRun(sha, config, Run(sha, config, s, schedule[..n]), schedule[n..])
  {
    var m, b := Run(sha, config, s, schedule[..n]), schedule[n..];
    forall k | 0 <= k < |b| && b[k].Step?
      ensures
        var t := Run(sha, config, m, b[..k]);
        b[k].client < |t.clients| && IsDigest(t.clients[b[k].client].digest) && Honest(t, b[k].client, b[k].reply)
    {
      RunOn(sha, config, s, schedule, n, k);
      assert b[k] == schedule[n + k];
    }
  }

  /** The state in which a client's only reply of a schedule reaches it, and what it makes of it. */
  lemma {:induction false} OneReply(sha: Bytes -> Digest, config: Config, s0: State, s: State, i: nat,
                                    schedule: seq<Action>)
    returns (m: State)
    requires At(sha, config, s0, s, i) && HonestRun(sha, config, s, schedule) && |RepliesTo(schedule, i)| == 1
    ensures At(sha, config, s0, m, i) && m.clients[i] == s.clients[i] && Honest(m, i, RepliesTo(schedule, i)[0])
    ensures Grows(m, Run(sha, config, s, schedule))
    ensures i < |Run(sha, config, s, schedule).clients|
    ensures i < |ClientNext(sha, config, m, i, RepliesTo(schedule, i)[0]).clients|
    ensures Run(sha, config, s, schedule).clients[i]
      == ClientNext(sha, config, m, i, RepliesTo(schedule, i)[0]).clients[i]
  {
    var n := After(schedule, i, 1);
    var early, late := schedule[..n - 1], schedule[n - 1..];
    assert schedule[..n][..n - 1] == early && schedule[..n][n - 1] == schedule[n - 1];
    assert RepliesTo(schedule[..n], i) == RepliesTo(early, i) + [schedule[n - 1].reply];
    assert RepliesTo(early, i) == [] && schedule[n - 1].reply == RepliesTo(schedule, i)[0];
    m := Run(sha, config, s, early);
    Stays(sha, config, s, i, early);
    AtKeeps(sha, config, s0, s, i, early);
    HonestSplits(sha, config, s, schedule, n);
    StepKeeps(sha, config, s0, m, schedule[n - 1]);
    var t := Run(sha, config, s, schedule[..n]);
    assert t == Next(sha, config, m, schedule[n - 1]);
    AtKeeps(sha, config, s0, s, i, schedule[..n]);
    Stays(sha, config, t, i, schedule[n..]);
    AtKeeps(sha, config, s0, t, i, schedule[n..]);
  }

  // ---------------------------------------------------------------- how a read-back ends

  /** What a read-back that gets the object makes of the call. */
  function Compared(sha: Bytes -> Digest, c: Client, purpose: Purpose, held: Bytes): Outcome {
    if held == c.content then if purpose == AfterSuccess then Stored else Reused
    else Failed(if purpose == AfterDuplicate && sha(held) == c.digest then Collision else Corruption)
  }

  /** What a read-back that gets no object makes of the call. */
  function Unread(config: Config, attempt: nat, purpose: Purpose, e: StoreError): Pc {
    if purpose == AfterDuplicate then Done(Failed(e))
    else if purpose == Resolving && e == NotFound && attempt < config.createAttempts then Creating(attempt + 1)
    else Done(Failed(OutcomeUnknown))
  }

  lemma {:induction false} Drop(a: seq<Reply>, b: seq<Reply>)
    ensures (a + b)[..|a|] == a && (a + b)[|a|..] == b
  {
  }

  lemma {:induction false} FailsAreTransient(fails: seq<Reply>)
    requires AllTransient(fails)
    ensures forall r :: r in fails ==> IsTransient(r)
  {
  }

  lemma {:induction false} ReadStep(sha: Bytes -> Digest, config: Config, s0: State, m: State, i: nat, get: Reply)
    requires At(sha, config, s0, m, i) && m.clients[i].pc.Reading? && Honest(m, i, get) && !Transient(get)
    ensures
      var t, c := ClientNext(sha, config, m, i, get), m.clients[i];
      && i < |t.clients|
      && (Accepted(get) ==>
            Held(m, c).Some? && t.clients[i].pc == Done(Compared(sha, c, c.pc.purpose, Held(m, c).value)))
      && (!Accepted(get) ==> t.clients[i].pc == Unread(config, c.pc.attempt, c.pc.purpose, RefusalError(get)))
  {
    assert ClientOk(sha, config, m, i);
  }

  /** The state after the transient failures of a read-back, before the reply that decides it. */
  lemma {:induction false} FailuresPass(sha: Bytes -> Digest, config: Config, s0: State, s: State, i: nat,
                                        schedule: seq<Action>, fails: seq<Reply>, get: Reply)
    returns (m: State, late: seq<Action>)
    requires At(sha, config, s0, s, i) && s.clients[i].pc.Reading? && s.clients[i].pc.retries == 0
    requires HonestRun(sha, config, s, schedule) && RepliesTo(schedule, i) == fails + [get]
    requires AllTransient(fails) && |fails| < config.readAttempts
    ensures At(sha, config, s0, m, i) && HonestRun(sha, config, m, late) && RepliesTo(late, i) == [get]
    ensures Run(sha, config, m, late) == Run(sha, config, s, schedule)
    ensures m.clients[i] == AfterFailures(config, s.clients[i], |fails|)
  {
    var n := After(schedule, i, |fails|);
    Drop(fails, [get]);
    FailsAreTransient(fails);
    ReadBackWaits(sha, config, s, i, schedule[..n]);
    HonestSplits(sha, config, s, schedule, n);
    AtKeeps(sha, config, s0, s, i, schedule[..n]);
    m, late := Run(sha, config, s, schedule[..n]), schedule[n..];
  }

  /** The reply that decides a read-back. */
  lemma {:induction false} ReadDecides(sha: Bytes -> Digest, config: Config, s0: State, s: State, i: nat,
                                       schedule: seq<Action>, get: Reply)
    requires At(sha, config, s0, s, i) && s.clients[i].pc.Reading? && HonestRun(sha, config, s, schedule)
    requires RepliesTo(schedule, i) == [get] && !Transient(get)
    ensures
      var c, t := s.clients[i], Run(sha, config, s, schedule);
      && i < |t.clients|
      && (Accepted(get) ==>
            Held(t, c).Some? && t.clients[i].pc == Done(Compared(sha, c, c.pc.purpose, Held(t, c).value)))
      && (!Accepted(get) ==> t.clients[i].pc == Unread(config, c.pc.attempt, c.pc.purpose, RefusalError(get)))
  {
    var m := OneReply(sha, config, s0, s, i, schedule);
    ReadStep(sha, config, s0, m, i, get);
  }

  /**
    A read-back from its start: after transient failures that leave an attempt, the first
    other reply decides, together with the object under the key.
   */
  lemma {:induction false} ReadEnds(sha: Bytes -> Digest, config: Config, s0: State, s: State, i: nat,
                                    schedule: seq<Action>, fails: seq<Reply>, get: Reply)
    requires At(sha, config, s0, s, i) && s.clients[i].pc.Reading? && s.clients[i].pc.retries == 0
    requires HonestRun(sha, config, s, schedule) && RepliesTo(schedule, i) == fails + [get]
    requires AllTransient(fails) && |fails| < config.readAttempts && !Transient(get)
    ensures
      var c, t := s.clients[i], Run(sha, config, s, schedule);
      && i < |t.clients|
      && (Accepted(get) ==>
            Held(t, c).Some? && t.clients[i].pc == Done(Compared(sha, c, c.pc.purpose, Held(t, c).value)))
      && (!Accepted(get) ==> t.clients[i].pc == Unread(config, c.pc.attempt, c.pc.purpose, RefusalError(get)))
  {
    var m, late := FailuresPass(sha, config, s0, s, i, schedule, fails, get);
    ReadDecides(sha, config, s0, m, i, late, get);
  }

  /** When every attempt fails transiently the read-back ends as a backend error. */
  lemma {:induction false} ReadExhausts(sha: Bytes -> Digest, config: Config, s0: State, s: State, i: nat,
                                        schedule: seq<Action>)
    requires At(sha, config, s0, s, i) && s.clients[i].pc.Reading? && s.clients[i].pc.retries == 0
    requires AllTransient(RepliesTo(schedule, i)) && |RepliesTo(schedule, i)| == config.readAttempts
    ensures
      var c, t := s.clients[i], Run(sha, config, s, schedule);
      i < |t.clients| && t.clients[i].pc == Unread(config, c.pc.attempt, c.pc.purpose, Backend)
  {
    FailsAreTransient(RepliesTo(schedule, i));
    ReadBackWaits(sha, config, s, i, schedule);
  }

  // ---------------------------------------------------------------- how a round ends

  /** Why the call reads back after this answer to its upload. */
  function Why(post: Reply): Purpose {
    if Accepted(post) then AfterSuccess else if AlreadyThere(post) then AfterDuplicate else Resolving
  }

  lemma {:induction false} PostStep(sha: Bytes -> Digest, config: Config, s0: State, m: State, i: nat, post: Reply)
    requires At(sha, config, s0, m, i) && m.clients[i].pc.Awaiting? && Honest(m, i, post)
    ensures
      var t, c := ClientNext(sha, config, m, i, post), m.clients[i];
      && i < |t.clients|
      && (Accepted(post) || AlreadyThere(post) || Ambiguous(post) ==>
            t.clients[i] == c.(pc := Reading(c.pc.attempt, Why(post), 0)))
      && (!Accepted(post) && !AlreadyThere(post) && !Ambiguous(post) ==>
            t.clients[i].pc == Done(Failed(RefusalError(post))))
      && (Accepted(post) ==> Held(m, c) == Some(c.content))
  {
    assert ClientOk(sha, config, m, i);
  }

  /** The state once the answer to the upload has arrived. */
  lemma {:induction false} Answered(sha: Bytes -> Digest, config: Config, s0: State, s: State, i: nat,
                                    schedule: seq<Action>, replies: seq<Reply>)
    returns (n: nat)
    requires At(sha, config, s0, s, i) && s.clients[i].pc.Awaiting? && HonestRun(sha, config, s, schedule)
    requires RepliesTo(schedule, i) == replies && replies != []
    ensures n <= |schedule| && RepliesTo(schedule[n..], i) == replies[1..]
    ensures
      var post, c, t := replies[0], s.clients[i], Run(sha, config, s, schedule[..n]);
      && At(sha, config, s0, t, i) && HonestRun(sha, config, t, schedule[n..])
      && Run(sha, config, t, schedule[n..]) == Run(sha, config, s, schedule)
      && (Accepted(post) || AlreadyThere(post) || Ambiguous(post) ==>
            t.clients[i] == c.(pc := Reading(c.pc.attempt, Why(post), 0)))
      && (!Accepted(post) && !AlreadyThere(post) && !Ambiguous(post) ==>
            t.clients[i].pc == Done(Failed(RefusalError(post))))
      && (Accepted(post) ==> Held(t, c) == Some(c.content))
  {
    n := After(schedule, i, 1);
    HonestSplits(sha, config, s, schedule, n);
    assert replies[..1] == [replies[0]];
    var m := OneReply(sha, config, s0, s, i, schedule[..n]);
    PostStep(sha, config, s0, m, i, replies[0]);
    AtKeeps(sha, config, s0, s, i, schedule[..n]);
  }

  lemma {:induction false} AfterFirst(post: Reply, fails: seq<Reply>, get: Reply)
    ensures ([post] + fails + [get])[0] == post && ([post] + fails + [get])[1..] == fails + [get]
  {
  }

  /** The state once the upload is answered and before its object is read back. */
  lemma {:induction false} ReadBackBegins(sha: Bytes -> Digest, config: Config, s0: State, s: State, i: nat,
                                          schedule: seq<Action>, replies: seq<Reply>)
    returns (m: State, late: seq<Action>)
    requires At(sha, config, s0, s, i) && s.clients[i].pc.Awaiting? && HonestRun(sha, config, s, schedule)
    requires RepliesTo(schedule, i) == replies && replies != []
    requires Accepted(replies[0]) || AlreadyThere(replies[0]) || Ambiguous(replies[0])
    ensures At(sha, config, s0, m, i) && HonestRun(sha, config, m, late) && RepliesTo(late, i) == replies[1..]
    ensures Run(sha, config, m, late) == Run(sha, config, s, schedule)
    ensures m.clients[i] == s.clients[i].(pc := Reading(s.clients[i].pc.attempt, Why(replies[0]), 0))
    ensures Accepted(replies[0]) ==> Held(m, s.clients[i]) == Some(s.clients[i].content)
  {
    var n := Answered(sha, config, s0, s, i, schedule, replies);
    m, late := Run(sha, config, s, schedule[..n]), schedule[n..];
  }

  /** A round whose read-back comes to an answer. */
  lemma {:induction false} RoundEnds(sha: Bytes -> Digest, config: Config, s0: State, s: State, i: nat,
                                     schedule: seq<Action>, post: Reply, fails: seq<Reply>, get: Reply)
    requires At(sha, config, s0, s, i) && s.clients[i].pc.Awaiting? && HonestRun(sha, config, s, schedule)
    requires RepliesTo(schedule, i) == [post] + fails + [get]
      && (Accepted(post) || AlreadyThere(post) || Ambiguous(post))
    requires AllTransient(fails) && |fails| < config.readAttempts && !Transient(get)
    ensures
      var t, c := Run(sha, config, s, schedule), s.clients[i];
      && i < |t.clients|
      && (Accepted(get) ==> Held(t, c).Some? && t.clients[i].pc == Done(Compared(sha, c, Why(post), Held(t, c).value)))
      && (!Accepted(get) ==> t.clients[i].pc == Unread(config, c.pc.attempt, Why(post), RefusalError(get)))
      && (Accepted(post) ==> Held(t, c) == Some(c.content))
  {
    AfterFirst(post, fails, get);
    var m, late := ReadBackBegins(sha, config, s0, s, i, schedule, [post] + fails + [get]);
    SamePayload(sha, Run(sha, config, s, schedule), s.clients[i], m.clients[i], Why(post));
    ReadEnds(sha, config, s0, m, i, late, fails, get);
    if Accepted(post) { AtKeeps(sha, config, s0, m, i, late); }
  }

  lemma {:induction false} SamePayload(sha: Bytes -> Digest, t: State, c: Client, d: Client, purpose: Purpose)
    requires c.digest == d.digest && c.content == d.content && IsDigest(c.digest)
    ensures Held(t, c) == Held(t, d)
      && forall held :: Compared(sha, c, purpose, held) == Compared(sha, d, purpose, held)
  {
  }

  /** The server's success means this very call created the object, and once it is read back the call is STORED. */
  lemma {:induction false} AcceptedUploadIsStored(sha: Bytes -> Digest, config: Config, s0: State, s: State, i: nat,
                                                  schedule: seq<Action>, post: Reply, fails: seq<Reply>, get: Reply)
    requires At(sha, config, s0, s, i) && s.clients[i].pc.Awaiting? && HonestRun(sha, config, s, schedule)
    requires RepliesTo(schedule, i) == [post] + fails + [get] && Accepted(post)
    requires AllTransient(fails) && |fails| < config.readAttempts && Accepted(get)
    ensures
      var t := Run(sha, config, s, schedule);
      i < |t.clients| && t.clients[i].pc == Done(Stored) && Held(t, s.clients[i]) == Some(s.clients[i].content)
  {
    RoundEnds(sha, config, s0, s, i, schedule, post, fails, get);
  }

  /**
    After a duplicate answer, or none that settles it, the object decides: the same bytes
    are REUSED, and other bytes are corruption, or a collision when a duplicate has the digest.
   */
  lemma {:induction false} ExistingObjectDecides(sha: Bytes -> Digest, config: Config, s0: State, s: State, i: nat,
                                                 schedule: seq<Action>, post: Reply, fails: seq<Reply>, get: Reply)
    requires At(sha, config, s0, s, i) && s.clients[i].pc.Awaiting? && HonestRun(sha, config, s, schedule)
    requires RepliesTo(schedule, i) == [post] + fails + [get] && (AlreadyThere(post) || Ambiguous(post))
    requires AllTransient(fails) && |fails| < config.readAttempts && Accepted(get)
    ensures
      var t, c := Run(sha, config, s, schedule), s.clients[i];
      && i < |t.clients| && Held(t, c).Some?
      && (Held(t, c).value == c.content ==> t.clients[i].pc == Done(Reused))
      && (Held(t, c).value != c.content ==>
            t.clients[i].pc
            == Done(Failed(if AlreadyThere(post) && sha(Held(t, c).value) == c.digest then Collision else Corruption)))
  {
    RoundEnds(sha, config, s0, s, i, schedule, post, fails, get);
  }

  lemma {:induction false} UnreadCases(config: Config, a: nat, post: Reply, get: Reply)
    requires !Accepted(get) && !Transient(get)
    ensures
      var pc := Unread(config, a, Why(post), RefusalError(get));
      && (Accepted(post) ==> pc == Done(Failed(OutcomeUnknown)))
      && (AlreadyThere(post) ==> pc == Done(Failed(RefusalError(get))))
      && (Ambiguous(post) && Absent(get) ==>
            pc == if a < config.createAttempts then Creating(a + 1) else Done(Failed(OutcomeUnknown)))
      && (Ambiguous(post) && !Absent(get) ==> pc == Done(Failed(OutcomeUnknown)))
  {
  }

  /**
    When the object cannot be read: after an ambiguous answer, an absent object is posted
    again while attempts are left; after a duplicate answer the error stands; in every
    other case the outcome is unknown.
   */
  lemma {:induction false} UnreadObjectDecides(sha: Bytes -> Digest, config: Config, s0: State, s: State, i: nat,
                                               schedule: seq<Action>, post: Reply, fails: seq<Reply>, get: Reply)
    requires At(sha, config, s0, s, i) && s.clients[i].pc.Awaiting? && HonestRun(sha, config, s, schedule)
    requires RepliesTo(schedule, i) == [post] + fails + [get]
      && (Accepted(post) || AlreadyThere(post) || Ambiguous(post))
    requires AllTransient(fails) && |fails| < config.readAttempts && !Accepted(get) && !Transient(get)
    ensures
      var t, a := Run(sha, config, s, schedule), s.clients[i].pc.attempt;
      && i < |t.clients|
      && (Accepted(post) ==> t.clients[i].pc == Done(Failed(OutcomeUnknown)))
      && (AlreadyThere(post) ==> t.clients[i].pc == Done(Failed(RefusalError(get))))
      && (Ambiguous(post) && Absent(get) ==>
            t.clients[i].pc == if a < config.createAttempts then Creating(a + 1) else Done(Failed(OutcomeUnknown)))
      && (Ambiguous(post) && !Absent(get) ==> t.clients[i].pc == Done(Failed(OutcomeUnknown)))
  {
    RoundEnds(sha, config, s0, s, i, schedule, post, fails, get);
    UnreadCases(config, s.clients[i].pc.attempt, post, get);
  }

  /** When every attempt to read fails transiently, a duplicate ends as a backend error and all else is unknown. */
  lemma {:induction false} ExhaustedReadDecides(sha: Bytes -> Digest, config: Config, s0: State, s: State, i: nat,
                                                schedule: seq<Action>, post: Reply, fails: seq<Reply>)
    requires At(sha, config, s0, s, i) && s.clients[i].pc.Awaiting? && HonestRun(sha, config, s, schedule)
    requires RepliesTo(schedule, i) == [post] + fails && (Accepted(post) || AlreadyThere(post) || Ambiguous(post))
    requires AllTransient(fails) && |fails| == config.readAttempts
    ensures
      var t := Run(sha, config, s, schedule);
      && i < |t.clients|
      && t.clients[i].pc == Done(Failed(if AlreadyThere(post) then Backend else OutcomeUnknown))
  {
    var m, late := ReadBackBegins(sha, config, s0, s, i, schedule, [post] + fails);
    assert ([post] + fails)[1..] == fails;
    ReadExhausts(sha, config, s0, m, i, late);
  }

  /** Any other answer to the upload is the call's failure. */
  lemma {:induction false} RefusedUploadFails(sha: Bytes -> Digest, config: Config, s0: State, s: State, i: nat,
                                              schedule: seq<Action>, post: Reply)
    requires At(sha, config, s0, s, i) && s.clients[i].pc.Awaiting? && HonestRun(sha, config, s, schedule)
    requires RepliesTo(schedule, i) == [post] && !Accepted(post) && !AlreadyThere(post) && !Ambiguous(post)
    ensures
      var t := Run(sha, config, s, schedule);
      && i < |t.clients|
      && t.clients[i].pc
         == Done(Failed(if Denied(post) then Authorization else if Absent(post) then NotFound else Backend))
  {
    var n := Answered(sha, config, s0, s, i, schedule, [post]);
    Stays(sha, config, Run(sha, config, s, schedule[..n]), i, schedule[n..]);
  }

  // ---------------------------------------------------------------- posting

  /** A call about to create posts its payload under its key and awaits the answer to that very request. */
  lemma {:induction false} CallPosts(sha: Bytes -> Digest, config: Config, s0: State, s: State, i: nat,
                                     schedule: seq<Action>)
    requires At(sha, config, s0, s, i) && s.clients[i].pc.Creating? && HonestRun(sha, config, s, schedule)
    requires |RepliesTo(schedule, i)| == 1
    ensures
      var t, c := Run(sha, config, s, schedule), s.clients[i];
      && i < |t.clients| && t.clients[i].pc.Awaiting? && t.clients[i].pc.attempt == c.pc.attempt
      && t.clients[i].pc.request < |t.requests|
      && t.requests[t.clients[i].pc.request] == Request(i, CanonicalKey(c.digest), c.content)
  {
    var m := OneReply(sha, config, s0, s, i, schedule);
    AtKeeps(sha, config, s0, s, i, schedule);
    assert ClientOk(sha, config, Run(sha, config, s, schedule), i);
  }

  /** From the beginning: a call whose upload is accepted and read back returns STORED at its first attempt. */
  lemma {:induction false} PutStores(sha: Bytes -> Digest, config: Config, s0: State, i: nat, schedule: seq<Action>,
                                     start: Reply, post: Reply, fails: seq<Reply>, get: Reply)
    requires ValidConfig(config) && Initial(sha, s0) && i < |s0.clients| && HonestRun(sha, config, s0, schedule)
    requires RepliesTo(schedule, i) == [start] + ([post] + fails + [get]) && Accepted(post)
    requires AllTransient(fails) && |fails| < config.readAttempts && Accepted(get)
    ensures
      var t := Run(sha, config, s0, schedule);
      && i < |t.clients| && t.clients[i].pc == Done(Stored) && IsDigest(s0.clients[i].digest)
      && Held(t, s0.clients[i]) == Some(s0.clients[i].content)
  {
    var own := [post] + fails + [get];
    RunKeeps(sha, config, s0, []);
    assert s0.clients[i] in s0.clients;
    var n := After(schedule, i, 1);
    assert ([start] + own)[..1] == [start] && ([start] + own)[1..] == own;
    HonestSplits(sha, config, s0, schedule, n);
    CallPosts(sha, config, s0, s0, i, schedule[..n]);
    AtKeeps(sha, config, s0, s0, i, schedule[..n]);
    AcceptedUploadIsStored(sha, config, s0, Run(sha, config, s0, schedule[..n]), i, schedule[n..], post, fails, get);
  }
}
