/**
  Classification of an observed release against the complete prior state of its family,
  and the runs obtained by cataloguing every first or revised release.
 */
module Classification {
  import opened Prelude
  import opened Strings
  import opened IdentityPayload
  import opened Lineage

  datatype ReleaseChange = FirstRelease | UnchangedRelease | RevisedRelease

  datatype ArtifactObservationResult = New | Reused | Revised | Failed

  datatype ArtifactClassification = ArtifactClassification(
    role: Str, digest: Str, result: ArtifactObservationResult, contentChanged: bool)

  datatype ReleaseClassification = ReleaseClassification(
    change: ReleaseChange, identity: Str, supersedes: Option<Str>, artifacts: seq<ArtifactClassification>)

  /** An observed release: its identity inputs and its identity.  The revision is never inferred. */
  datatype ObservedRelease = ObservedRelease(
    scheme: Str, source: Str, family: Str, artifacts: seq<(Str, Str)>, identity: Str)

  datatype PriorFamilyState = PriorFamilyState(source: Str, family: Str, releases: seq<CatalogedRelease>)

  function IdentityOf(sha: Str -> Sha256Hex, scheme: Str, source: Str, family: Str, artifacts: seq<(Str, Str)>)
    : Result<Sha256Hex, IdentityError>
  {
    IdentityHash(sha, Payload(scheme, source, family, None, artifacts))
  }

  predicate ValidObserved(sha: Str -> Sha256Hex, o: ObservedRelease) {
    && SortedUniqueRoles(Roles(o.artifacts))
    && IdentityOf(sha, o.scheme, o.source, o.family, o.artifacts) == Success(o.identity)
  }

  predicate ValidPrior(prior: PriorFamilyState) {
    && IsIdentifier(prior.source) && IsIdentifier(prior.family)
    && (forall c :: c in prior.releases ==> ValidCataloged(c))
    && DistinctIdentities(prior.releases)
  }

  // ---------------------------------------------------------------- constructor checks

  predicate ArtifactChecks(a: ArtifactClassification) {
    IsIdentifier(a.role) && IsSha256(a.digest) && a.result != Failed && (a.contentChanged <==> a.result == Revised)
  }

  predicate Allowed(change: ReleaseChange, result: ArtifactObservationResult) {
    match change
    case FirstRelease => result == New
    case UnchangedRelease => result == Reused
    case RevisedRelease => result == Revised || result == Reused
  }

  /** What the constructors of a classification and of its artifacts demand. */
  predicate ClassificationChecks(c: ReleaseClassification) {
    && (forall a :: a in c.artifacts ==> ArtifactChecks(a) && Allowed(c.change, a.result))
    && IsSha256(c.identity)
    && SortedUniqueRoles(Roles(Pairs(c.artifacts)))
    && if c.change == RevisedRelease then
         && c.supersedes.Some? && IsSha256(c.supersedes.value) && c.supersedes.value != c.identity
         && exists a :: a in c.artifacts && a.result == Revised
       else c.supersedes.None?
  }

  function Checked(c: ReleaseClassification): Result<ReleaseClassification, LineageError> {
    if ClassificationChecks(c) then Success(c) else Failure(InvalidClassification)
  }

  function Pairs(artifacts: seq<ArtifactClassification>): (pairs: seq<(Str, Str)>)
    ensures |pairs| == |artifacts|
    ensures forall i :: 0 <= i < |pairs| ==> pairs[i] == (artifacts[i].role, artifacts[i].digest)
  {
    seq(|artifacts|, i requires 0 <= i < |artifacts| => (artifacts[i].role, artifacts[i].digest))
  }

  // ---------------------------------------------------------------- classification

  /** `dict(pairs)` */
  function Digests(pairs: seq<(Str, Str)>): (m: map<Str, Str>)
    ensures forall r :: r in m <==> r in Roles(pairs)
  {
    if pairs == [] then map[]
    else
      var last := |pairs| - 1;
      assert Roles(pairs) == Roles(pairs[..last]) + [pairs[last].0];
      Digests(pairs[..last])[pairs[last].0 := pairs[last].1]
  }

  function Compare(pair: (Str, Str), head: map<Str, Str>): ArtifactObservationResult
    requires pair.0 in head
  {
    if pair.1 != head[pair.0] then Revised else Reused
  }

  function Label(pairs: seq<(Str, Str)>, result: ArtifactObservationResult): seq<ArtifactClassification> {
    seq(|pairs|, i requires 0 <= i < |pairs| =>
      ArtifactClassification(pairs[i].0, pairs[i].1, result, false))
  }

  function LabelAgainst(pairs: seq<(Str, Str)>, head: map<Str, Str>): seq<ArtifactClassification>
    requires forall r :: r in Roles(pairs) ==> r in head
  {
    seq(|pairs|, i requires 0 <= i < |pairs| =>
      assert Roles(pairs)[i] == pairs[i].0;
      ArtifactClassification(pairs[i].0, pairs[i].1, Compare(pairs[i], head), pairs[i].1 != head[pairs[i].0]))
  }

  predicate SameRoles(a: seq<(Str, Str)>, b: seq<(Str, Str)>) {
    (forall r :: r in Roles(a) ==> r in Roles(b)) && (forall r :: r in Roles(b) ==> r in Roles(a))
  }

  /** The judgement against the resolved head, once the catalogue is known to be comparable. */
  function Judge(o: ObservedRelease, resolved: Result<(CatalogedRelease, set<Str>), LineageError>)
    : Result<ReleaseClassification, LineageError>
  {
    match resolved
    case Failure(e) => Failure(e)
    case Success((head, superseded)) =>
      if !SameRoles(o.artifacts, head.artifacts) then Failure(RolesDiffer)
      else if o.identity == head.identity then
        Checked(ReleaseClassification(UnchangedRelease, o.identity, None, Label(o.artifacts, Reused)))
      else if o.identity in superseded then Failure(SupersededReappeared)
      else
        Checked(ReleaseClassification(RevisedRelease, o.identity, Some(head.identity),
                                      LabelAgainst(o.artifacts, Digests(head.artifacts))))
  }

  /** The classification owed to a caller, or the reason it fails closed. */
  ghost function Classify(sha: Str -> Sha256Hex, o: ObservedRelease, prior: PriorFamilyState)
    : Result<ReleaseClassification, LineageError>
  {
    if prior.source != o.source then Failure(WrongSource)
    else if prior.family != o.family then Failure(WrongFamily)
    else if exists c :: c in prior.releases && Mismatched(sha, o, c) then Failure(IdentityMismatch)
    else if prior.releases == [] then
      Checked(ReleaseClassification(FirstRelease, o.identity, None, Label(o.artifacts, New)))
    else Judge(o, Resolve(prior.releases))
  }

  predicate Mismatched(sha: Str -> Sha256Hex, o: ObservedRelease, c: CatalogedRelease) {
    IdentityOf(sha, o.scheme, o.source, o.family, c.artifacts) != Success(c.identity)
  }

  /** The loop over the catalogue, stopping at the first hit. */
  method AnyHit<T>(s: seq<T>, hit: T -> bool) returns (found: bool)
    ensures found <==> exists x :: x in s && hit(x)
  {
    for k := 0 to |s|
      invariant forall i :: 0 <= i < k ==> !hit(s[i])
    {
      if hit(s[k]) { return true; }
    }
    return false;
  }

  method ClassifyRelease(sha: Str -> Sha256Hex, o: ObservedRelease, prior: PriorFamilyState)
    returns (r: Result<ReleaseClassification, LineageError>)
    requires ValidObserved(sha, o) && ValidPrior(prior)
    ensures r == Classify(sha, o, prior)
    ensures r != Failure(InvalidClassification)
  {
    ClassifyNeverTripsItsChecks(sha, o, prior);
    if prior.source != o.source { return Failure(WrongSource); }
    if prior.family != o.family { return Failure(WrongFamily); }
    var mismatched := AnyHit(prior.releases, c => Mismatched(sha, o, c));
    if mismatched { return Failure(IdentityMismatch); }
    if prior.releases == [] {
      return Checked(ReleaseClassification(FirstRelease, o.identity, None, Label(o.artifacts, New)));
    }
    var resolved := ResolveUniqueHead(prior.releases);
    return Judge(o, resolved);
  }

  // ---------------------------------------------------------------- why its own checks always pass

  lemma {:induction false} DigestsFind(pairs: seq<(Str, Str)>, i: nat)
    requires StrictlySorted(Roles(pairs)) && i < |pairs|
    ensures pairs[i].0 in Digests(pairs) && Digests(pairs)[pairs[i].0] == pairs[i].1
    decreases |pairs|
  {
    assert Roles(pairs)[i] == pairs[i].0;
    if i < |pairs| - 1 {
      var front := pairs[..|pairs| - 1];
      assert Roles(front) == Roles(pairs)[..|pairs| - 1];
      DigestsFind(front, i);
      assert StrLt(Roles(pairs)[i], Roles(pairs)[|pairs| - 1]);
    }
  }

  /** With the same roles and no digest differing, the two role/digest lists are one list. */
  lemma {:induction false} SameDigestsSamePairs(a: seq<(Str, Str)>, b: seq<(Str, Str)>)
    requires StrictlySorted(Roles(a)) && StrictlySorted(Roles(b)) && SameRoles(a, b)
    requires forall i :: 0 <= i < |a| ==> a[i].0 in Digests(b) && a[i].1 == Digests(b)[a[i].0]
    ensures a == b
  {
    StrictlySortedUnique(Roles(a), Roles(b));
    forall i | 0 <= i < |a| ensures a[i] == b[i] {
      assert Roles(a)[i] == Roles(b)[i];
      DigestsFind(b, i);
    }
  }

  lemma {:induction false} HashedInputsAreValid(sha: Str -> Sha256Hex, o: ObservedRelease)
    requires ValidObserved(sha, o)
    ensures ValidPayload(Payload(o.scheme, o.source, o.family, None, o.artifacts))
    ensures IsSha256(o.identity) && forall p :: p in o.artifacts ==> IsIdentifier(p.0) && IsSha256(p.1)
  {
    var p := Payload(o.scheme, o.source, o.family, None, o.artifacts);
    StrictRolesAreCanonical(p);
    IdentityHashAccepts(sha, p);
    forall q | q in o.artifacts ensures IsIdentifier(q.0) {
      var i :| 0 <= i < |o.artifacts| && o.artifacts[i] == q;
      assert Roles(o.artifacts)[i] in Roles(o.artifacts);
    }
  }

  lemma {:induction false} LabelPasses(sha: Str -> Sha256Hex, o: ObservedRelease, change: ReleaseChange,
                                       result: ArtifactObservationResult)
    requires ValidObserved(sha, o) && result != Revised && result != Failed
    requires change != RevisedRelease && Allowed(change, result)
    ensures ClassificationChecks(ReleaseClassification(change, o.identity, None, Label(o.artifacts, result)))
  {
    HashedInputsAreValid(sha, o);
    assert Pairs(Label(o.artifacts, result)) == o.artifacts;
    forall a | a in Label(o.artifacts, result) ensures ArtifactChecks(a) {
      var i :| 0 <= i < |o.artifacts| && a == Label(o.artifacts, result)[i];
      assert o.artifacts[i] in o.artifacts;
    }
  }

  /** A new identity over the head's roles always revises at least one of them. */
  lemma {:induction false} RevisedPasses(sha: Str -> Sha256Hex, o: ObservedRelease, head: CatalogedRelease)
    requires ValidObserved(sha, o) && ValidCataloged(head) && !Mismatched(sha, o, head)
    requires SameRoles(o.artifacts, head.artifacts) && o.identity != head.identity
    ensures
      var artifacts := LabelAgainst(o.artifacts, Digests(head.artifacts));
      && ClassificationChecks(ReleaseClassification(RevisedRelease, o.identity, Some(head.identity), artifacts))
      && Pairs(artifacts) == o.artifacts
  {
    HashedInputsAreValid(sha, o);
    var digests := Digests(head.artifacts);
    var artifacts := LabelAgainst(o.artifacts, digests);
    assert Pairs(artifacts) == o.artifacts;
    forall a | a in artifacts ensures ArtifactChecks(a) && Allowed(RevisedRelease, a.result) {
      var i :| 0 <= i < |artifacts| && a == artifacts[i];
      assert o.artifacts[i] in o.artifacts;
    }
    NewIdentityNewPairs(sha, o, head);
    var i := DifferingDigest(o.artifacts, head.artifacts);
    assert artifacts[i].result == Revised && artifacts[i] in artifacts;
  }

  /** Two role/digest lists over the same roles differ in some digest or are one list. */
  lemma {:induction false} DifferingDigest(a: seq<(Str, Str)>, b: seq<(Str, Str)>) returns (i: nat)
    requires StrictlySorted(Roles(a)) && StrictlySorted(Roles(b)) && SameRoles(a, b) && a != b
    ensures i < |a| && a[i].0 in Digests(b) && a[i].1 != Digests(b)[a[i].0]
  {
    forall k | 0 <= k < |a| ensures a[k].0 in Digests(b) { assert Roles(a)[k] in Roles(b); }
    i := 0;
    while i < |a| && a[i].1 == Digests(b)[a[i].0]
      invariant i <= |a| && forall k :: 0 <= k < i ==> a[k].1 == Digests(b)[a[k].0]
    {
      i := i + 1;
    }
    if i == |a| { SameDigestsSamePairs(a, b); }
  }

  lemma {:induction false} NewIdentityNewPairs(sha: Str -> Sha256Hex, o: ObservedRelease, head: CatalogedRelease)
    requires ValidObserved(sha, o) && !Mismatched(sha, o, head) && o.identity != head.identity
    ensures o.artifacts != head.artifacts
  {
  }

  lemma {:induction false} JudgeNeverTrips(sha: Str -> Sha256Hex, o: ObservedRelease, head: CatalogedRelease,
                                           superseded: set<Str>)
    requires ValidObserved(sha, o) && ValidCataloged(head) && !Mismatched(sha, o, head)
    ensures Judge(o, Success((head, superseded))) != Failure(InvalidClassification)
  {
    LabelPasses(sha, o, UnchangedRelease, Reused);
    if SameRoles(o.artifacts, head.artifacts) && o.identity != head.identity { RevisedPasses(sha, o, head); }
  }

  lemma {:induction false} ResolvedIsListed(releases: seq<CatalogedRelease>)
    requires DistinctIdentities(releases) && Resolve(releases).Success?
    ensures Resolve(releases).value.0 in releases
  {
    ResolveIffChain(releases);
    var chain :| ChainOf(chain, releases);
    ChainStartsAtHead(chain, releases);
  }

  /** Whatever the catalogue holds, a classification never violates its own constructor's contract. */
  lemma {:induction false} ClassifyNeverTripsItsChecks(sha: Str -> Sha256Hex, o: ObservedRelease,
      prior: PriorFamilyState)
    requires ValidObserved(sha, o) && ValidPrior(prior)
    ensures Classify(sha, o, prior) != Failure(InvalidClassification)
  {
    LabelPasses(sha, o, FirstRelease, New);
    var resolved := Resolve(prior.releases);
    if resolved.Success? && forall c :: c in prior.releases ==> !Mismatched(sha, o, c) {
      ResolvedIsListed(prior.releases);
      JudgeNeverTrips(sha, o, resolved.value.0, resolved.value.1);
    }
  }

  /** Some catalogued identity is not the hash of its own artifacts under the observed release's scheme. */
  ghost predicate SomeRowDisagrees(sha: Str -> Sha256Hex, o: ObservedRelease, releases: seq<CatalogedRelease>) {
    exists c :: c in releases
                && IdentityHash(sha, Payload(o.scheme, o.source, o.family, None, c.artifacts)) != Success(c.identity)
  }

  /** A foreign catalogue, or one with a row that does not reproduce, is refused before anything else. */
  lemma {:induction false} ForeignCatalogueRefused(sha: Str -> Sha256Hex, o: ObservedRelease, prior: PriorFamilyState)
    ensures
      var v := Classify(sha, o, prior);
      && (prior.source != o.source ==> v == Failure(WrongSource))
      && (prior.source == o.source && prior.family != o.family ==> v == Failure(WrongFamily))
      && (prior.source == o.source && prior.family == o.family && SomeRowDisagrees(sha, o, prior.releases) ==>
            v == Failure(IdentityMismatch))
  {
    forall c ensures Mismatched(sha, o, c) <==>
      IdentityHash(sha, Payload(o.scheme, o.source, o.family, None, c.artifacts)) != Success(c.identity) {}
  }

  /** Nothing catalogued makes a first release, every role new; a catalogue that is no chain is refused for that. */
  lemma {:induction false} WithoutHead(sha: Str -> Sha256Hex, o: ObservedRelease, prior: PriorFamilyState)
    requires ValidObserved(sha, o) && prior.source == o.source && prior.family == o.family
    requires !SomeRowDisagrees(sha, o, prior.releases)
    ensures
      var v := Classify(sha, o, prior);
      && (prior.releases == [] ==>
            && v.Success? && v.value.change == FirstRelease && v.value.identity == o.identity
               && v.value.supersedes == None
            && Pairs(v.value.artifacts) == o.artifacts
            && forall a :: a in v.value.artifacts ==> a.result == New && !a.contentChanged)
      && (prior.releases != [] && Resolve(prior.releases).Failure? ==> v == Failure(Resolve(prior.releases).error))
  {
    forall c | c in prior.releases ensures !Mismatched(sha, o, c) {}
    LabelPasses(sha, o, FirstRelease, New);
    assert Pairs(Label(o.artifacts, New)) == o.artifacts;
  }
}
