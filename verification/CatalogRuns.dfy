/**
  Runs of "classify, then catalogue": what one classification decides in terms of the
  chain it is judged against, and what every run keeps.
 */
module CatalogRuns {
  import opened Prelude
  import opened Strings
  import opened IdentityPayload
  import opened Lineage
  import opened Classification

  // ---------------------------------------------------------------- one classification

  /** The catalogue belongs to the observed release's family and hashes under its scheme. */
  ghost predicate Comparable(sha: Str -> Sha256Hex, o: ObservedRelease, prior: PriorFamilyState) {
    && prior.source == o.source && prior.family == o.family
    && forall c :: c in prior.releases ==> !Mismatched(sha, o, c)
  }

  /** The digest a chain's head holds for the i-th observed role differs. */
  predicate Differs(o: ObservedRelease, head: CatalogedRelease, i: nat)
    requires i < |o.artifacts|
  {
    forall j :: 0 <= j < |head.artifacts| && head.artifacts[j].0 == o.artifacts[i].0 ==>
      head.artifacts[j].1 != o.artifacts[i].1
  }

  /** Judged against a chain, a release is new, the head again, an older member, or of another shape. */
  ghost predicate JudgedAgainst(o: ObservedRelease, chain: seq<CatalogedRelease>,
                                v: Result<ReleaseClassification, LineageError>)
    requires chain != []
  {
    && (v == Failure(RolesDiffer) <==> !SameRoles(o.artifacts, chain[0].artifacts))
    && (v == Failure(SupersededReappeared) <==>
        SameRoles(o.artifacts, chain[0].artifacts) && o.identity in Identities(chain[1..]))
    && (v.Failure? ==> v.error in {RolesDiffer, SupersededReappeared})
    && (v.Success? ==>
        && v.value.identity == o.identity && Pairs(v.value.artifacts) == o.artifacts
        && (v.value.change == UnchangedRelease <==> o.identity == chain[0].identity)
        && (v.value.change == RevisedRelease <==> o.identity != chain[0].identity)
        && v.value.supersedes == (if v.value.change == RevisedRelease then Some(chain[0].identity) else None)
        && (v.value.change == UnchangedRelease ==> forall i :: 0 <= i < |o.artifacts| ==>
             v.value.artifacts[i].result == Reused && !v.value.artifacts[i].contentChanged)
        && (v.value.change == RevisedRelease ==> forall i :: 0 <= i < |o.artifacts| ==>
             && v.value.artifacts[i].result == (if Differs(o, chain[0], i) then Revised else Reused)
             && (v.value.artifacts[i].contentChanged <==> Differs(o, chain[0], i))))
  }

  /** One digest per role: differing from it is differing from the head's entry. */
  lemma {:induction false} DiffersFromHead(o: ObservedRelease, head: CatalogedRelease, i: nat)
    requires StrictlySorted(Roles(head.artifacts)) && SameRoles(o.artifacts, head.artifacts) && i < |o.artifacts|
    ensures o.artifacts[i].0 in Digests(head.artifacts)
    ensures Differs(o, head, i) <==> o.artifacts[i].1 != Digests(head.artifacts)[o.artifacts[i].0]
  {
    assert Roles(o.artifacts)[i] in Roles(head.artifacts);
    var j :| 0 <= j < |head.artifacts| && Roles(head.artifacts)[j] == o.artifacts[i].0;
    forall k | 0 <= k < |head.artifacts|
      ensures head.artifacts[k].0 in Digests(head.artifacts)
      ensures Digests(head.artifacts)[head.artifacts[k].0] == head.artifacts[k].1
    {
      DigestsFind(head.artifacts, k);
    }
  }

  /** The result for a revised release: what it supersedes and which roles it marks. */
  lemma {:induction false} RevisedAgainst(sha: Str -> Sha256Hex, o: ObservedRelease, head: CatalogedRelease)
    requires ValidObserved(sha, o) && ValidCataloged(head) && !Mismatched(sha, o, head)
    requires SameRoles(o.artifacts, head.artifacts) && o.identity != head.identity
    ensures
      var artifacts := LabelAgainst(o.artifacts, Digests(head.artifacts));
      && ClassificationChecks(ReleaseClassification(RevisedRelease, o.identity, Some(head.identity), artifacts))
      && Pairs(artifacts) == o.artifacts
      && forall i :: 0 <= i < |o.artifacts| ==>
           && artifacts[i].result == (if Differs(o, head, i) then Revised else Reused)
           && (artifacts[i].contentChanged <==> Differs(o, head, i))
  {
    RevisedPasses(sha, o, head);
    var artifacts := LabelAgainst(o.artifacts, Digests(head.artifacts));
    forall i | 0 <= i < |o.artifacts|
      ensures artifacts[i].result == (if Differs(o, head, i) then Revised else Reused)
      ensures artifacts[i].contentChanged <==> Differs(o, head, i)
    {
      DiffersFromHead(o, head, i);
    }
  }

  /** Against the resolved head, the judgement is what it should be. */
  lemma {:induction false} JudgeAgainst(sha: Str -> Sha256Hex, o: ObservedRelease, chain: seq<CatalogedRelease>)
    requires chain != [] && ValidObserved(sha, o) && ValidCataloged(chain[0]) && !Mismatched(sha, o, chain[0])
    requires chain[0].identity !in Identities(chain[1..])
    ensures JudgedAgainst(o, chain, Judge(o, Success((chain[0], Identities(chain[1..])))))
  {
    var head := chain[0];
    LabelPasses(sha, o, UnchangedRelease, Reused);
    if SameRoles(o.artifacts, head.artifacts) {
      if o.identity == head.identity {
        assert Pairs(Label(o.artifacts, Reused)) == o.artifacts;
      } else {
        RevisedAgainst(sha, o, head);
      }
    }
  }

  /** The whole decision, for every well-formed catalogue that forms a chain. */
  lemma {:induction false} ClassifyAgainstChain(sha: Str -> Sha256Hex, o: ObservedRelease, prior: PriorFamilyState,
                                                chain: seq<CatalogedRelease>)
    requires ValidObserved(sha, o) && ValidPrior(prior) && Comparable(sha, o, prior) && ChainOf(chain, prior.releases)
    ensures JudgedAgainst(o, chain, Classify(sha, o, prior))
  {
    ResolveChain(chain, prior.releases);
    ChainStartsAtHead(chain, prior.releases);
    HeadIsNotSuperseded(chain, prior.releases);
    assert chain[0] in prior.releases && ValidCataloged(chain[0]);
    JudgeAgainst(sha, o, chain);
    JudgedByChain(sha, o, prior, chain);
  }

  lemma {:induction false} JudgedByChain(sha: Str -> Sha256Hex, o: ObservedRelease, prior: PriorFamilyState,
                                         chain: seq<CatalogedRelease>)
    requires Comparable(sha, o, prior) && chain != [] && chain[0] in prior.releases
    requires Resolve(prior.releases) == Success((chain[0], Identities(chain[1..])))
    ensures Classify(sha, o, prior) == Judge(o, Success((chain[0], Identities(chain[1..]))))
  {
  }

  /** The canonical text whose hash is the identity of these pairs in the release's family. */
  function IdentityText(o: ObservedRelease, pairs: seq<(Str, Str)>): Str
    requires pairs != []
  {
    Encode(Payload(o.scheme, o.source, o.family, None, pairs))
  }

  lemma {:induction false} IdentityIsHashedText(sha: Str -> Sha256Hex, o: ObservedRelease, pairs: seq<(Str, Str)>,
                                                identity: Str)
    requires SortedUniqueRoles(Roles(pairs))
    requires IdentityOf(sha, o.scheme, o.source, o.family, pairs) == Success(identity)
    ensures pairs != [] && identity == sha(IdentityText(o, pairs))
    ensures ValidPayload(Payload(o.scheme, o.source, o.family, None, pairs))
  {
    assert |Roles(pairs)| == |pairs|;
    StrictRolesAreCanonical(Payload(o.scheme, o.source, o.family, None, pairs));
    IdentityHashAccepts(sha, Payload(o.scheme, o.source, o.family, None, pairs));
  }

  /** "Unchanged" means every digest equals the head's, unless the two texts are a SHA-256 collision. */
  lemma {:induction false} UnchangedIffSamePairs(sha: Str -> Sha256Hex, o: ObservedRelease, prior: PriorFamilyState,
                                                 chain: seq<CatalogedRelease>)
    requires ValidObserved(sha, o) && ValidPrior(prior) && Comparable(sha, o, prior) && ChainOf(chain, prior.releases)
    requires o.artifacts != [] && chain[0].artifacts != []
    requires
      var seen, held := IdentityText(o, o.artifacts), IdentityText(o, chain[0].artifacts);
      sha(seen) == sha(held) ==> seen == held
    ensures
      var v := Classify(sha, o, prior);
      (v.Success? && v.value.change == UnchangedRelease) <==> o.artifacts == chain[0].artifacts
  {
    var head := chain[0];
    ClassifyAgainstChain(sha, o, prior, chain);
    ChainStartsAtHead(chain, prior.releases);
    assert ValidCataloged(head) && !Mismatched(sha, o, head);
    IdentityIsHashedText(sha, o, o.artifacts, o.identity);
    IdentityIsHashedText(sha, o, head.artifacts, head.identity);
    if o.identity == head.identity {
      EncodeInjective(Payload(o.scheme, o.source, o.family, None, o.artifacts),
                      Payload(o.scheme, o.source, o.family, None, head.artifacts));
    }
    if o.artifacts == head.artifacts { HeadIsNotSuperseded(chain, prior.releases); }
  }

  lemma {:induction false} HeadIsNotSuperseded(chain: seq<CatalogedRelease>, releases: seq<CatalogedRelease>)
    requires DistinctIdentities(releases) && ChainOf(chain, releases)
    ensures chain[0].identity !in Identities(chain[1..])
  {
    ChainStartsAtHead(chain, releases);
    IdentitiesTail(chain);
  }

  /** The verdict, error included, does not depend on the order in which the catalogue is supplied. */
  lemma {:induction false} ClassifyOrderIndependent(sha: Str -> Sha256Hex, o: ObservedRelease, prior: PriorFamilyState,
                                                    releases: seq<CatalogedRelease>)
    requires ValidPrior(prior) && multiset(releases) == multiset(prior.releases)
    ensures Classify(sha, o, prior.(releases := releases)) == Classify(sha, o, prior)
  {
    forall x ensures x in releases <==> x in prior.releases {
      assert x in multiset(releases) <==> x in multiset(prior.releases);
    }
    assert |multiset(releases)| == |multiset(prior.releases)|;
    ResolveOrderIndependent(prior.releases, releases);
  }

  // ---------------------------------------------------------------- runs

  /** The row a classification contributes to the catalogue. */
  function CatalogRow(c: ReleaseClassification): CatalogedRelease {
    CatalogedRelease(c.identity, c.supersedes, Pairs(c.artifacts))
  }

  ghost function Verdict(sha: Str -> Sha256Hex, o: ObservedRelease, catalog: seq<CatalogedRelease>)
    : Result<ReleaseClassification, LineageError>
  {
    Classify(sha, o, PriorFamilyState(o.source, o.family, catalog))
  }

  /** A first or revised release is to be catalogued; anything else leaves the catalogue alone. */
  ghost predicate Catalogs(v: Result<ReleaseClassification, LineageError>) {
    v.Success? && v.value.change != UnchangedRelease
  }

  /** One observation; the catalogue may come back in any order. */
  ghost predicate CatalogStep(before: seq<CatalogedRelease>, v: Result<ReleaseClassification, LineageError>,
                              after: seq<CatalogedRelease>) {
    multiset(after) == multiset(if Catalogs(v) then before + [CatalogRow(v.value)] else before)
  }

  /** Observations of one family under one scheme, their verdicts, and the catalogue before each and after the last. */
  datatype Run = Run(
    observed: seq<ObservedRelease>,
    verdicts: seq<Result<ReleaseClassification, LineageError>>,
    catalogs: seq<seq<CatalogedRelease>>)

  ghost predicate Shaped(run: Run) {
    |run.verdicts| == |run.observed| && |run.catalogs| == |run.observed| + 1
  }

  /** A run starts from an empty catalogue and catalogues every first or revised release. */
  ghost predicate IsRun(sha: Str -> Sha256Hex, run: Run) {
    && Shaped(run) && run.catalogs[0] == []
    && (forall o :: o in run.observed ==> ValidObserved(sha, o))
    && (forall i, j :: 0 <= i < |run.observed| && 0 <= j < |run.observed| ==>
          SameFamily(run.observed[i], run.observed[j]))
    && (forall i :: 0 <= i < |run.observed| ==> run.verdicts[i] == Verdict(sha, run.observed[i], run.catalogs[i]))
    && forall i :: 0 <= i < |run.observed| ==> CatalogStep(run.catalogs[i], run.verdicts[i], run.catalogs[i + 1])
  }

  predicate SameFamily(a: ObservedRelease, b: ObservedRelease) {
    a.scheme == b.scheme && a.source == b.source && a.family == b.family
  }

  /** The releases catalogued by the first k observations, newest first. */
  ghost function History(run: Run, k: nat): seq<CatalogedRelease>
    requires Shaped(run) && k <= |run.observed|
  {
    if k == 0 then []
    else (if Catalogs(run.verdicts[k - 1]) then [CatalogRow(run.verdicts[k - 1].value)] else []) + History(run, k - 1)
  }

  /** What holds of the catalogue after k observations. */
  ghost predicate Sound(sha: Str -> Sha256Hex, run: Run, k: nat)
    requires Shaped(run) && k <= |run.observed|
  {
    var catalog, history := run.catalogs[k], History(run, k);
    && multiset(catalog) == multiset(history)
    && (history != [] ==> IsChain(history))
    && DistinctIdentities(history)
    && (k > 0 ==> history != [])
    && (forall c :: c in history ==> ValidCataloged(c) && SameRoles(c.artifacts, run.observed[0].artifacts))
    && (forall c :: c in history ==> !Mismatched(sha, run.observed[0], c))
  }

  lemma {:induction false} ReadyToClassify(sha: Str -> Sha256Hex, run: Run, k: nat)
    requires IsRun(sha, run) && k < |run.observed| && Sound(sha, run, k)
    ensures
      var o := run.observed[k];
      var prior := PriorFamilyState(o.source, o.family, run.catalogs[k]);
      ValidObserved(sha, o) && ValidPrior(prior) && Comparable(sha, o, prior)
    ensures History(run, k) != [] ==> ChainOf(History(run, k), run.catalogs[k])
  {
    var o, history := run.observed[k], History(run, k);
    assert o in run.observed && SameFamily(o, run.observed[0]);
    HashedInputsAreValid(sha, o);
    PermutedDistinct(run.catalogs[k], history);
    forall c ensures c in run.catalogs[k] <==> c in history {
      assert c in multiset(run.catalogs[k]) <==> c in multiset(history);
    }
    forall c | c in history ensures !Mismatched(sha, o, c) {
      assert !Mismatched(sha, run.observed[0], c);
    }
  }

  /** The verdict at step k, against the history of the run. */
  lemma {:induction false} StepVerdict(sha: Str -> Sha256Hex, run: Run, k: nat)
    requires IsRun(sha, run) && k < |run.observed| && Sound(sha, run, k)
    ensures
      var o, history, v := run.observed[k], History(run, k), run.verdicts[k];
      if history == [] then v == Success(ReleaseClassification(FirstRelease, o.identity, None, Label(o.artifacts, New)))
      else JudgedAgainst(o, history, v)
  {
    var o, history := run.observed[k], History(run, k);
    ReadyToClassify(sha, run, k);
    assert run.verdicts[k] == Verdict(sha, o, run.catalogs[k]);
    if history == [] {
      assert |multiset(run.catalogs[k])| == 0;
      LabelPasses(sha, o, FirstRelease, New);
    } else {
      ClassifyAgainstChain(sha, o, PriorFamilyState(o.source, o.family, run.catalogs[k]), history);
    }
  }

  /** The row a verdict contributes, against the chain it was judged by. */
  lemma {:induction false} RowFacts(o: ObservedRelease, history: seq<CatalogedRelease>,
                                    v: Result<ReleaseClassification, LineageError>)
    requires Catalogs(v)
    requires
      if history == [] then v == Success(ReleaseClassification(FirstRelease, o.identity, None, Label(o.artifacts, New)))
      else JudgedAgainst(o, history, v)
    ensures
      var row := CatalogRow(v.value);
      && row.artifacts == o.artifacts && row.identity == o.identity
      && if history == [] then row.supersedes.None?
         else SameRoles(row.artifacts, history[0].artifacts) && row.supersedes == Some(history[0].identity)
              && row.identity != history[0].identity && row.identity !in Identities(history[1..])
  {
    if history == [] { assert Pairs(Label(o.artifacts, New)) == o.artifacts; }
  }

  lemma {:induction false} SoundStep(sha: Str -> Sha256Hex, run: Run, k: nat)
    requires IsRun(sha, run) && k < |run.observed| && Sound(sha, run, k)
    ensures Sound(sha, run, k + 1)
  {
    var history, v := History(run, k), run.verdicts[k];
    StepVerdict(sha, run, k);
    assert CatalogStep(run.catalogs[k], v, run.catalogs[k + 1]);
    if Catalogs(v) {
      var row := CatalogRow(v.value);
      RowFacts(run.observed[k], history, v);
      NewRowIsSound(sha, run, k, row);
      if history != [] { IdentitiesTail(history); }
      RowExtendsChain(history, row);
      SoundAfterRow(sha, run, k, row);
    } else {
      QuietStepIsSound(sha, run, k);
    }
  }

  lemma {:induction false} QuietStepIsSound(sha: Str -> Sha256Hex, run: Run, k: nat)
    requires Shaped(run) && k < |run.observed| && Sound(sha, run, k) && !Catalogs(run.verdicts[k])
    requires multiset(run.catalogs[k + 1]) == multiset(run.catalogs[k]) && History(run, k) != []
    ensures Sound(sha, run, k + 1)
  {
    assert History(run, k + 1) == History(run, k);
  }

  lemma {:induction false} SoundAfterRow(sha: Str -> Sha256Hex, run: Run, k: nat, row: CatalogedRelease)
    requires Shaped(run) && k < |run.observed| && Sound(sha, run, k)
    requires History(run, k + 1) == [row] + History(run, k)
    requires multiset(run.catalogs[k + 1]) == multiset(run.catalogs[k] + [row])
    requires IsChain([row] + History(run, k)) && DistinctIdentities([row] + History(run, k))
    requires ValidCataloged(row) && !Mismatched(sha, run.observed[0], row)
    requires SameRoles(row.artifacts, run.observed[0].artifacts)
    ensures Sound(sha, run, k + 1)
  {
    assert multiset([row] + History(run, k)) == multiset{row} + multiset(History(run, k));
    forall c | c in History(run, k + 1) ensures c == row || c in History(run, k) {}
  }

  lemma {:induction false} NewRowIsSound(sha: Str -> Sha256Hex, run: Run, k: nat, row: CatalogedRelease)
    requires IsRun(sha, run) && k < |run.observed| && Sound(sha, run, k)
    requires row.artifacts == run.observed[k].artifacts && row.identity == run.observed[k].identity
    requires
      var h := History(run, k);
      if h == [] then row.supersedes.None?
      else
        && SameRoles(row.artifacts, h[0].artifacts) && row.supersedes == Some(h[0].identity)
        && row.identity != h[0].identity
    ensures ValidCataloged(row) && !Mismatched(sha, run.observed[0], row)
    ensures SameRoles(row.artifacts, run.observed[0].artifacts)
  {
    var o, h := run.observed[k], History(run, k);
    assert o in run.observed && SameFamily(o, run.observed[0]);
    HashedInputsAreValid(sha, o);
    if h != [] { assert h[0] in h; }
  }

  lemma {:induction false} RowExtendsChain(history: seq<CatalogedRelease>, row: CatalogedRelease)
    requires
      if history == [] then row.supersedes.None?
      else IsChain(history) && row.supersedes == Some(history[0].identity)
    requires DistinctIdentities(history) && row.identity !in Identities(history)
    ensures IsChain([row] + history) && DistinctIdentities([row] + history)
  {
    var longer := [row] + history;
    forall i, j | 0 <= i < j < |longer| ensures longer[i].identity != longer[j].identity {
      assert longer[j] == history[j - 1] && history[j - 1] in history;
    }
  }

  /** Every run keeps its catalogue sound. */
  lemma {:induction false} RunIsSound(sha: Str -> Sha256Hex, run: Run, k: nat)
    requires IsRun(sha, run) && k <= |run.observed|
    ensures Sound(sha, run, k)
  {
    if k > 0 {
      RunIsSound(sha, run, k - 1);
      SoundStep(sha, run, k - 1);
    }
  }

  /**
    For every run, at every point: the catalogue is one supersession chain, ordered exactly
    as the releases were catalogued.
   */
  lemma {:induction false} RunKeepsOneChain(sha: Str -> Sha256Hex, run: Run, k: nat)
    requires IsRun(sha, run) && 0 < k <= |run.observed|
    ensures ChainOf(History(run, k), run.catalogs[k])
  {
    RunIsSound(sha, run, k);
  }

  /** So the head search succeeds, and its head is the last release catalogued. */
  lemma {:induction false} RunKeepsItsHead(sha: Str -> Sha256Hex, run: Run, k: nat)
    requires IsRun(sha, run) && 0 < k <= |run.observed|
    ensures
      var history := History(run, k);
      history != [] && Resolve(run.catalogs[k]) == Success((history[0], Identities(history[1..])))
  {
    RunIsSound(sha, run, k);
    PermutedDistinct(run.catalogs[k], History(run, k));
    ResolveChain(History(run, k), run.catalogs[k]);
  }

  /** And one role set runs through it. */
  lemma {:induction false} RunKeepsItsRoles(sha: Str -> Sha256Hex, run: Run, k: nat)
    requires IsRun(sha, run) && k <= |run.observed|
    ensures forall c :: c in run.catalogs[k] ==> SameRoles(c.artifacts, run.observed[0].artifacts)
  {
    RunIsSound(sha, run, k);
    forall c | c in run.catalogs[k] ensures c in History(run, k) { assert c in multiset(History(run, k)); }
  }

  /** Why an observation is refused in a run that began with `first`: its roles, or an identity superseded already. */
  function Refusal(o: ObservedRelease, first: ObservedRelease, history: seq<CatalogedRelease>): Option<LineageError> {
    if !SameRoles(o.artifacts, first.artifacts) then Some(RolesDiffer)
    else if history != [] && o.identity in Identities(history[1..]) then Some(SupersededReappeared)
    else None
  }

  /**
    For every run, the only failures are a changed role set and the reappearance of a
    superseded identity, and each occurs exactly when it is the case.
   */
  lemma {:induction false} RunFailures(sha: Str -> Sha256Hex, run: Run, k: nat)
    requires IsRun(sha, run) && k < |run.observed|
    ensures
      var v := run.verdicts[k];
      (if v.Failure? then Some(v.error) else None) == Refusal(run.observed[k], run.observed[0], History(run, k))
  {
    RunIsSound(sha, run, k);
    StepVerdict(sha, run, k);
    var history := History(run, k);
    if history != [] { assert history[0] in history; }
  }

  /** A release that was classified without failure is in the history from then on. */
  lemma {:induction false} StepRemembers(sha: Str -> Sha256Hex, run: Run, k: nat)
    requires IsRun(sha, run) && k < |run.observed| && run.verdicts[k].Success?
    ensures run.observed[k].identity in Identities(History(run, k + 1))
  {
    var v, older, newer := run.verdicts[k], History(run, k), History(run, k + 1);
    RunIsSound(sha, run, k);
    StepVerdict(sha, run, k);
    if Catalogs(v) {
      assert newer[0] == CatalogRow(v.value) && newer[0] in newer;
    } else {
      assert newer == older && newer[0] in newer;
    }
  }

  lemma {:induction false} HistoryGrows(run: Run, i: nat, k: nat)
    requires Shaped(run) && i <= k <= |run.observed|
    ensures Identities(History(run, i)) <= Identities(History(run, k))
  {
    if i < k {
      HistoryGrows(run, i, k - 1);
      assert forall c :: c in History(run, k - 1) ==> c in History(run, k);
    }
  }

  /** An A, B, A sequence fails closed: an identity classified before is the head again or it is refused. */
  lemma {:induction false} RollbackFailsClosed(sha: Str -> Sha256Hex, run: Run, i: nat, k: nat)
    requires IsRun(sha, run) && i < k < |run.observed| && run.verdicts[i].Success?
    requires run.observed[k].identity == run.observed[i].identity
    requires SameRoles(run.observed[k].artifacts, run.observed[0].artifacts)
    ensures
      var v, history := run.verdicts[k], History(run, k);
      && history != []
      && if run.observed[k].identity == history[0].identity then v.Success? && v.value.change == UnchangedRelease
         else v == Failure(SupersededReappeared)
  {
    StepRemembers(sha, run, i);
    HistoryGrows(run, i + 1, k);
    RunFailures(sha, run, k);
    RunIsSound(sha, run, k);
    StepVerdict(sha, run, k);
    IdentitiesTail(History(run, k));
  }
}
