/**
  The supersession graph of one release family and the search for its unique head.
  The graph may hold forks, cycles, dangling links and disconnected parts; only one
  simple chain is accepted.
 */
module Lineage {
  import opened Prelude
  import opened Strings
  import opened IdentityPayload

  datatype LineageError =
    | WrongSource | WrongFamily | IdentityMismatch
    | DanglingPredecessor | NoHead | SeveralHeads | Cycle | NotOneChain
    | RolesDiffer | SupersededReappeared | InvalidClassification

  /** A catalogued release; `artifacts` are its (role, digest) pairs. */
  datatype CatalogedRelease = CatalogedRelease(
    identity: Str, supersedes: Option<Str>, artifacts: seq<(Str, Str)>)

  predicate ValidCataloged(c: CatalogedRelease) {
    && IsSha256(c.identity)
    && (c.supersedes.Some? ==> IsSha256(c.supersedes.value) && c.supersedes.value != c.identity)
    && (forall pair :: pair in c.artifacts ==> IsSha256(pair.1))
    && SortedUniqueRoles(Roles(c.artifacts))
  }

  predicate DistinctIdentities(releases: seq<CatalogedRelease>) {
    forall i, j :: 0 <= i < j < |releases| ==> releases[i].identity != releases[j].identity
  }

  function Identities(releases: seq<CatalogedRelease>): (ids: set<Str>) {
    set r | r in releases :: r.identity
  }

  // ---------------------------------------------------------------- what a lineage is

  /** Newest first: each release supersedes the next one and the last is a root. */
  ghost predicate IsChain(chain: seq<CatalogedRelease>) {
    && chain != []
    && (forall i :: 0 <= i < |chain| - 1 ==> chain[i].supersedes == Some(chain[i + 1].identity))
    && chain[|chain| - 1].supersedes.None?
  }

  /** `chain` arranges exactly the given releases as one supersession chain. */
  ghost predicate ChainOf(chain: seq<CatalogedRelease>, releases: seq<CatalogedRelease>) {
    IsChain(chain) && multiset(chain) == multiset(releases)
  }

  ghost predicate Dangles(releases: seq<CatalogedRelease>) {
    exists r :: r in releases && r.supersedes.Some? && r.supersedes.value !in Identities(releases)
  }

  ghost predicate IsHead(h: CatalogedRelease, releases: seq<CatalogedRelease>) {
    h in releases && forall r :: r in releases ==> r.supersedes != Some(h.identity)
  }

  ghost predicate HasRoot(releases: seq<CatalogedRelease>) {
    exists r :: r in releases && r.supersedes.None?
  }

  ghost predicate SeveralHeadsIn(releases: seq<CatalogedRelease>) {
    exists h, k :: IsHead(h, releases) && IsHead(k, releases) && h != k
  }

  /** What the search owes its caller: the chain's first release and every other identity, or why not. */
  ghost function Resolve(releases: seq<CatalogedRelease>): Result<(CatalogedRelease, set<Str>), LineageError> {
    if Dangles(releases) then Failure(DanglingPredecessor)
    else if !exists h :: IsHead(h, releases) then Failure(NoHead)
    else if SeveralHeadsIn(releases) then Failure(SeveralHeads)
    else if !HasRoot(releases) then Failure(Cycle)
    else if exists chain :: ChainOf(chain, releases) then
      var chain :| ChainOf(chain, releases);
      Success((chain[0], Identities(chain[1..])))
    else Failure(NotOneChain)
  }

  // ---------------------------------------------------------------- the search

  function ByIdentity(releases: seq<CatalogedRelease>): (m: map<Str, CatalogedRelease>)
    requires DistinctIdentities(releases)
    ensures m.Keys == Identities(releases)
    ensures forall r :: r in releases ==> m[r.identity] == r
  {
    map r | r in releases :: r.identity := r
  }

  function Unsuperseded(releases: seq<CatalogedRelease>, superseded: set<Str>): (heads: seq<CatalogedRelease>)
    ensures forall r :: r in heads <==> r in releases && r.identity !in superseded
    ensures DistinctIdentities(releases) ==> DistinctIdentities(heads)
  {
    if releases == [] then []
    else if releases[0].identity in superseded then Unsuperseded(releases[1..], superseded)
    else [releases[0]] + Unsuperseded(releases[1..], superseded)
  }

  /** The releases visited so far: distinct, linked, and starting at the head. */
  ghost predicate IsWalk(walk: seq<CatalogedRelease>, releases: seq<CatalogedRelease>) {
    && walk != [] && (forall w :: w in walk ==> w in releases) && DistinctIdentities(walk)
    && forall i :: 0 <= i < |walk| - 1 ==> walk[i].supersedes == Some(walk[i + 1].identity)
  }

  lemma {:induction false} IdentitiesAppend(walk: seq<CatalogedRelease>, x: CatalogedRelease)
    requires x.identity !in Identities(walk) && (walk != [] ==> DistinctIdentities(walk))
    ensures Identities(walk + [x]) == Identities(walk) + {x.identity}
    ensures DistinctIdentities(walk + [x])
  {
    var more := walk + [x];
    forall id | id in Identities(walk) + {x.identity} ensures id in Identities(more) {
      if id == x.identity { assert more[|walk|] == x; }
      else {
        var w :| w in walk && w.identity == id;
        assert w in more;
      }
    }
    forall i, j | 0 <= i < j < |more| ensures more[i].identity != more[j].identity {
      assert walk[i] in walk;
    }
  }

  /** Distinct releases drawn from a list are no more than the list, and all of it when as many. */
  lemma {:induction false} DrawnFrom(part: seq<CatalogedRelease>, whole: seq<CatalogedRelease>)
    requires DistinctIdentities(part) && DistinctIdentities(whole) && forall x :: x in part ==> x in whole
    ensures multiset(part) <= multiset(whole) && |part| <= |whole|
    ensures |part| == |whole| ==> multiset(part) == multiset(whole)
  {
    Distinct(part);
    Distinct(whole);
    var rest := multiset(whole) - multiset(part);
    assert multiset(whole) == multiset(part) + rest;
    assert |multiset(whole)| == |multiset(part)| + |rest|;
  }

  lemma {:induction false} SameIdentitySameRelease(releases: seq<CatalogedRelease>, x: CatalogedRelease,
                                                   y: CatalogedRelease)
    requires DistinctIdentities(releases) && x in releases && y in releases && x.identity == y.identity
    ensures x == y
  {
  }

  function IdsOf(d: set<CatalogedRelease>): set<Str> { set r | r in d :: r.identity }

  function LinksOf(d: set<CatalogedRelease>): set<Str> {
    set r | r in d && r.supersedes.Some? :: r.supersedes.value
  }

  lemma {:induction false} LinkCount(d: set<CatalogedRelease>)
    ensures |LinksOf(d)| <= |d|
    decreases |d|
  {
    if d != {} {
      var x :| x in d;
      LinkCount(d - {x});
      assert LinksOf(d) == LinksOf(d - {x}) + LinksOf({x});
      assert x.supersedes.Some? ==> LinksOf({x}) == {x.supersedes.value};
      assert x.supersedes.None? ==> LinksOf({x}) == {};
    }
  }

  lemma {:induction false} IdentityCount(d: set<CatalogedRelease>)
    requires forall x, y :: x in d && y in d && x.identity == y.identity ==> x == y
    ensures |IdsOf(d)| == |d|
    decreases |d|
  {
    if d != {} {
      var x :| x in d;
      IdentityCount(d - {x});
      assert IdsOf(d) == IdsOf(d - {x}) + {x.identity};
    }
  }

  /** When all the identities of a set are superseded from inside it, none of its releases is a root. */
  lemma {:induction false} CoveredHasNoRoot(d: set<CatalogedRelease>, root: CatalogedRelease)
    requires forall x, y :: x in d && y in d && x.identity == y.identity ==> x == y
    requires IdsOf(d) <= LinksOf(d) && root in d
    ensures root.supersedes.Some?
  {
    IdentityCount(d);
    LinkCount(d - {root});
    if root.supersedes.None? {
      assert LinksOf(d) == LinksOf(d - {root});
      SubsetSize(IdsOf(d), LinksOf(d));
    }
  }

  /** The walk has run back into itself. */
  ghost predicate Loops(walk: seq<CatalogedRelease>, releases: seq<CatalogedRelease>) {
    && IsWalk(walk, releases) && walk[|walk| - 1].supersedes.Some?
    && walk[|walk| - 1].supersedes.value in Identities(walk)
  }

  lemma {:induction false} LoopHasNoRoot(walk: seq<CatalogedRelease>, releases: seq<CatalogedRelease>)
    requires Loops(walk, releases)
    ensures forall w :: w in walk ==> w.supersedes.Some?
  {
    forall i | 0 <= i < |walk| ensures walk[i].supersedes.Some? {
      if i < |walk| - 1 { assert walk[i].supersedes == Some(walk[i + 1].identity); }
    }
  }

  /** Every release off the loop is superseded by another release off the loop. */
  lemma {:induction false} OffLoopSuperseded(releases: seq<CatalogedRelease>, walk: seq<CatalogedRelease>,
                                             r: CatalogedRelease)
    returns (p: CatalogedRelease)
    requires DistinctIdentities(releases) && !SeveralHeadsIn(releases)
    requires Loops(walk, releases) && IsHead(walk[0], releases) && r in releases && r !in walk
    ensures p in releases && p !in walk && p.supersedes == Some(r.identity)
  {
    assert r != walk[0];
    assert !IsHead(r, releases);
    p :| p in releases && p.supersedes == Some(r.identity);
    if p in walk { LoopClosed(releases, walk, p, r); }
  }

  /**
    When the walk from the only head meets itself, no release is a root: the releases
    off the walk are each superseded by another of them, and a root among them would
    leave one supersession short.
   */
  lemma {:induction false} WalkIntoCycle(releases: seq<CatalogedRelease>, walk: seq<CatalogedRelease>)
    requires DistinctIdentities(releases) && !SeveralHeadsIn(releases)
    requires Loops(walk, releases) && IsHead(walk[0], releases)
    ensures !HasRoot(releases)
  {
    LoopHasNoRoot(walk, releases);
    var off := set r | r in releases && r !in walk;
    forall id | id in IdsOf(off) ensures id in LinksOf(off) {
      var r :| r in off && r.identity == id;
      var p := OffLoopSuperseded(releases, walk, r);
      assert p in off;
    }
    forall r | r in releases ensures r.supersedes.Some? {
      if r in off { CoveredHasNoRoot(off, r); }
    }
  }

  lemma {:induction false} SubsetSize<T>(a: set<T>, b: set<T>)
    requires a <= b
    ensures |a| <= |b|
  {
    assert b == a + (b - a);
  }

  lemma {:induction false} LoopClosed(releases: seq<CatalogedRelease>, walk: seq<CatalogedRelease>,
                                      p: CatalogedRelease, r: CatalogedRelease)
    requires DistinctIdentities(releases) && Loops(walk, releases) && p in walk && r in releases
    requires p.supersedes == Some(r.identity)
    ensures r in walk
  {
    var i :| 0 <= i < |walk| && walk[i] == p;
    if i < |walk| - 1 {
      SameIdentitySameRelease(releases, r, walk[i + 1]);
    } else {
      var w :| w in walk && w.identity == r.identity;
      SameIdentitySameRelease(releases, r, w);
    }
  }

  lemma {:induction false} ChainStartsAtHead(chain: seq<CatalogedRelease>, releases: seq<CatalogedRelease>)
    requires DistinctIdentities(releases) && ChainOf(chain, releases)
    ensures DistinctIdentities(chain) && (forall x :: x in chain <==> x in releases)
    ensures IsHead(chain[0], releases)
    ensures !Dangles(releases) && HasRoot(releases) && !SeveralHeadsIn(releases)
  {
    forall x ensures x in chain <==> x in releases {
      assert x in multiset(chain) <==> x in multiset(releases);
    }
    PermutedDistinct(chain, releases);
    forall r | r in releases
      ensures r.supersedes != Some(chain[0].identity)
      ensures r.supersedes.Some? ==> r.supersedes.value in Identities(releases)
    {
      var i :| 0 <= i < |chain| && chain[i] == r;
      if i < |chain| - 1 { assert chain[i + 1] in chain; }
    }
    assert chain[|chain| - 1] in releases;
    forall h | h in releases && h != chain[0] ensures !IsHead(h, releases) {
      var i :| 0 <= i < |chain| && chain[i] == h;
      assert chain[i - 1] in releases && chain[i - 1].supersedes == Some(h.identity);
    }
  }

  /** Distinctness of identities survives rearrangement. */
  lemma {:induction false} PermutedDistinct(a: seq<CatalogedRelease>, b: seq<CatalogedRelease>)
    requires DistinctIdentities(b) && multiset(a) == multiset(b)
    ensures DistinctIdentities(a)
  {
    Distinct(b);
    forall i, j | 0 <= i < j < |a| ensures a[i].identity != a[j].identity {
      assert a[i] in multiset(b) && a[j] in multiset(b);
      if a[i].identity == a[j].identity {
        SameIdentitySameRelease(b, a[i], a[j]);
        CountedTwice(a, i, j);
      }
    }
  }

  lemma {:induction false} CountedTwice<T>(s: seq<T>, i: int, j: int)
    requires 0 <= i < j < |s| && s[i] == s[j]
    ensures multiset(s)[s[i]] >= 2
  {
    assert s == s[..j] + s[j..];
    assert s[..j][i] == s[i] && s[j..][0] == s[i];
  }

  lemma {:induction false} IdentitiesTail(walk: seq<CatalogedRelease>)
    requires walk != [] && DistinctIdentities(walk)
    ensures Identities(walk[1..]) == Identities(walk) - {walk[0].identity}
  {
    forall w | w in walk && w.identity != walk[0].identity ensures w in walk[1..] {
      var i :| 0 <= i < |walk| && walk[i] == w;
      assert walk[1..][i - 1] == w;
    }
  }

  lemma {:induction false} RootIsLast(chain: seq<CatalogedRelease>, i: nat)
    requires IsChain(chain) && i < |chain| && chain[i].supersedes.None?
    ensures i == |chain| - 1
  {
    forall j | 0 <= j < |chain| - 1 ensures chain[j].supersedes.Some? {
      assert chain[j].supersedes == Some(chain[j + 1].identity);
    }
  }

  /** The walk from the head retraces the chain, so a walk that ends at a root is the whole chain. */
  lemma {:induction false} ChainFollowsWalk(
    chain: seq<CatalogedRelease>, walk: seq<CatalogedRelease>, releases: seq<CatalogedRelease>)
    requires DistinctIdentities(releases) && ChainOf(chain, releases)
    requires IsWalk(walk, releases) && IsHead(walk[0], releases) && walk[|walk| - 1].supersedes.None?
    ensures walk == chain
  {
    ChainStartsAtHead(chain, releases);
    var i := 0;
    while i < |walk| - 1
      invariant 0 <= i < |walk| && i < |chain| && walk[..i + 1] == chain[..i + 1]
    {
      assert walk[..i + 1][i] == walk[i] && chain[..i + 1][i] == chain[i];
      assert walk[i].supersedes == Some(walk[i + 1].identity);
      assert walk[i + 1] in releases && chain[i + 1] in releases;
      SameIdentitySameRelease(releases, walk[i + 1], chain[i + 1]);
      assert walk[..i + 2] == walk[..i + 1] + [walk[i + 1]] && chain[..i + 2] == chain[..i + 1] + [chain[i + 1]];
      i := i + 1;
    }
    assert walk[..i + 1][i] == walk[i] && chain[..i + 1][i] == chain[i];
    RootIsLast(chain, i);
    assert walk[..i + 1] == walk && chain[..i + 1] == chain;
  }

  /** The arrangement is unique. */
  lemma {:induction false} ChainUnique(a: seq<CatalogedRelease>, b: seq<CatalogedRelease>,
                                       releases: seq<CatalogedRelease>)
    requires DistinctIdentities(releases) && ChainOf(a, releases) && ChainOf(b, releases)
    ensures a == b
  {
    ChainStartsAtHead(b, releases);
    ChainFollowsWalk(a, b, releases);
  }

  lemma {:induction false} ResolveChain(chain: seq<CatalogedRelease>, releases: seq<CatalogedRelease>)
    requires DistinctIdentities(releases) && ChainOf(chain, releases)
    ensures Resolve(releases) == Success((chain[0], Identities(chain[1..])))
  {
    ChainStartsAtHead(chain, releases);
    assert exists h :: IsHead(h, releases);
    var found :| ChainOf(found, releases) && Resolve(releases) == Success((found[0], Identities(found[1..])));
    ChainUnique(found, chain, releases);
  }

  function Predecessors(releases: seq<CatalogedRelease>): set<Str> {
    set r | r in releases && r.supersedes.Some? :: r.supersedes.value
  }

  lemma {:induction false} HeadIffUnsuperseded(h: CatalogedRelease, releases: seq<CatalogedRelease>)
    ensures IsHead(h, releases) <==> h in releases && h.identity !in Predecessors(releases)
  {
    forall r | r in releases && r.supersedes == Some(h.identity) ensures h.identity in Predecessors(releases) {
      assert r.supersedes.value == h.identity;
    }
  }

  lemma {:induction false} HeadsAreUnsuperseded(releases: seq<CatalogedRelease>)
    requires DistinctIdentities(releases)
    ensures
      var heads := Unsuperseded(releases, Predecessors(releases));
      && (heads == [] ==> !exists h :: IsHead(h, releases))
      && (heads != [] ==> IsHead(heads[0], releases))
      && (|heads| > 1 ==> SeveralHeadsIn(releases))
      && (|heads| == 1 ==> !SeveralHeadsIn(releases))
  {
    var heads := Unsuperseded(releases, Predecessors(releases));
    forall h ensures h in heads <==> IsHead(h, releases) { HeadIffUnsuperseded(h, releases); }
    if heads != [] { assert heads[0] in heads; }
    if |heads| > 1 { assert heads[1] in heads && heads[0] != heads[1]; }
  }

  /** Taking one more step keeps the walk a walk, within the size of the catalogue. */
  lemma {:induction false} WalkStep(walk: seq<CatalogedRelease>, x: CatalogedRelease, releases: seq<CatalogedRelease>)
    requires DistinctIdentities(releases) && x in releases && x.identity !in Identities(walk)
    requires walk != [] ==> IsWalk(walk, releases) && walk[|walk| - 1].supersedes == Some(x.identity)
    ensures IsWalk(walk + [x], releases) && |walk| < |releases|
    ensures Identities(walk + [x]) == Identities(walk) + {x.identity}
  {
    IdentitiesAppend(walk, x);
    DrawnFrom(walk + [x], releases);
  }

  lemma {:induction false} WalkCoversChain(chain: seq<CatalogedRelease>, walk: seq<CatalogedRelease>,
                                           releases: seq<CatalogedRelease>)
    requires DistinctIdentities(releases) && ChainOf(chain, releases)
    requires IsWalk(walk, releases) && IsHead(walk[0], releases) && walk[|walk| - 1].supersedes.None?
    ensures |walk| == |releases|
  {
    ChainFollowsWalk(chain, walk, releases);
    assert |multiset(chain)| == |multiset(releases)|;
  }

  /** What a walk that reached a root decides. */
  lemma {:induction false} WalkDecides(walk: seq<CatalogedRelease>, releases: seq<CatalogedRelease>)
    requires DistinctIdentities(releases) && !Dangles(releases) && !SeveralHeadsIn(releases)
    requires IsWalk(walk, releases) && IsHead(walk[0], releases) && walk[|walk| - 1].supersedes.None?
    ensures Resolve(releases) ==
      if |walk| == |releases| then Success((walk[0], Identities(walk) - {walk[0].identity})) else Failure(NotOneChain)
  {
    assert walk[|walk| - 1] in releases && HasRoot(releases);
    if |walk| == |releases| {
      DrawnFrom(walk, releases);
      ResolveChain(walk, releases);
      IdentitiesTail(walk);
    } else if exists chain :: ChainOf(chain, releases) {
      var chain :| ChainOf(chain, releases);
      WalkCoversChain(chain, walk, releases);
    }
  }

  /** The first loop: the identities some release supersedes, unless one of them is not in the catalogue. */
  method CollectSuperseded(releases: seq<CatalogedRelease>, byIdentity: map<Str, CatalogedRelease>)
    returns (superseded: Option<set<Str>>)
    requires byIdentity.Keys == Identities(releases)
    ensures superseded.None? <==> Dangles(releases)
    ensures superseded.Some? ==> superseded.value == Predecessors(releases)
  {
    var seen: set<Str> := {};
    for k := 0 to |releases|
      invariant forall x :: x in releases[..k] && x.supersedes.Some? ==> x.supersedes.value in byIdentity
      invariant seen == Predecessors(releases[..k])
    {
      assert releases[..k + 1] == releases[..k] + [releases[k]];
      var predecessor := releases[k].supersedes;
      if predecessor.Some? {
        if predecessor.value !in byIdentity {
          assert releases[k] in releases;
          return None;
        }
        seen := seen + {predecessor.value};
      }
    }
    assert releases[..|releases|] == releases;
    return Some(seen);
  }

  method ResolveUniqueHead(releases: seq<CatalogedRelease>)
    returns (r: Result<(CatalogedRelease, set<Str>), LineageError>)
    requires DistinctIdentities(releases)
    ensures r == Resolve(releases)
  {
    var byIdentity := ByIdentity(releases);
    var superseded := CollectSuperseded(releases, byIdentity);
    if superseded.None? { return Failure(DanglingPredecessor); }
    var heads := Unsuperseded(releases, superseded.value);
    HeadsAreUnsuperseded(releases);
    if heads == [] { return Failure(NoHead); }
    assert IsHead(heads[0], releases);
    if |heads| != 1 { return Failure(SeveralHeads); }
    r := FollowLineage(releases, byIdentity, heads[0]);
  }

  /** The walk so far and the release it will visit next. */
  ghost predicate Following(walk: seq<CatalogedRelease>, current: Option<CatalogedRelease>,
                            head: CatalogedRelease, releases: seq<CatalogedRelease>) {
    && (current.Some? ==> current.value in releases)
    && if walk == [] then current == Some(head) else
         && IsWalk(walk, releases) && walk[0] == head
         && walk[|walk| - 1].supersedes == if current.Some? then Some(current.value.identity) else None
  }

  /** `m` finds every release under its identity. */
  ghost predicate Indexes(m: map<Str, CatalogedRelease>, releases: seq<CatalogedRelease>) {
    m.Keys == Identities(releases) && forall r :: r in releases ==> m[r.identity] == r
  }

  lemma {:induction false} FollowStep(walk: seq<CatalogedRelease>, current: CatalogedRelease, head: CatalogedRelease,
                   releases: seq<CatalogedRelease>, byIdentity: map<Str, CatalogedRelease>)
    requires DistinctIdentities(releases) && !Dangles(releases) && Indexes(byIdentity, releases)
    requires Following(walk, Some(current), head, releases) && current.identity !in Identities(walk)
    ensures current.supersedes.Some? ==> current.supersedes.value in byIdentity
    ensures
      var next := if current.supersedes.Some? then Some(byIdentity[current.supersedes.value]) else None;
      Following(walk + [current], next, head, releases) && |walk| < |releases|
    ensures Identities(walk + [current]) == Identities(walk) + {current.identity}
  {
    WalkStep(walk, current, releases);
    assert current.supersedes.Some? ==> current.supersedes.value in Identities(releases);
  }

  /** What a walk that met itself decides. */
  lemma {:induction false} LoopDecides(walk: seq<CatalogedRelease>, current: CatalogedRelease, head: CatalogedRelease,
                    releases: seq<CatalogedRelease>)
    requires DistinctIdentities(releases) && !Dangles(releases) && IsHead(head, releases) && !SeveralHeadsIn(releases)
    requires Following(walk, Some(current), head, releases) && current.identity in Identities(walk)
    ensures Resolve(releases) == Failure(Cycle)
  {
    assert Loops(walk, releases);
    WalkIntoCycle(releases, walk);
  }

  /** The second half of the search: from the only head down to a root. */
  method FollowLineage(releases: seq<CatalogedRelease>, byIdentity: map<Str, CatalogedRelease>, head: CatalogedRelease)
    returns (r: Result<(CatalogedRelease, set<Str>), LineageError>)
    requires DistinctIdentities(releases) && Indexes(byIdentity, releases)
    requires !Dangles(releases) && IsHead(head, releases) && !SeveralHeadsIn(releases)
    ensures r == Resolve(releases)
  {
    var visited: set<Str> := {};
    var current := Some(head);
    ghost var walk: seq<CatalogedRelease> := [];
    while current.Some?
      invariant visited == Identities(walk) && |visited| == |walk| <= |releases|
      invariant Following(walk, current, head, releases)
      decreases |releases| - |visited|
    {
      if current.value.identity in visited {
        LoopDecides(walk, current.value, head, releases);
        return Failure(Cycle);
      }
      FollowStep(walk, current.value, head, releases, byIdentity);
      walk := walk + [current.value];
      visited := visited + {current.value.identity};
      var predecessor := current.value.supersedes;
      current := if predecessor.Some? then Some(byIdentity[predecessor.value]) else None;
    }
    WalkDecides(walk, releases);
    if |visited| != |releases| { return Failure(NotOneChain); }
    return Success((head, visited - {head.identity}));
  }

  // ---------------------------------------------------------------- what the search decides

  /**
    The search succeeds exactly when some arrangement of the releases is one supersession
    chain, and then returns that chain's first element and all the other identities.
   */
  lemma {:induction false} ResolveIffChain(releases: seq<CatalogedRelease>)
    requires DistinctIdentities(releases)
    ensures Resolve(releases).Success? <==> exists chain :: ChainOf(chain, releases)
    ensures forall chain :: ChainOf(chain, releases) ==>
      Resolve(releases) == Success((chain[0], Identities(chain[1..])))
  {
    forall chain | ChainOf(chain, releases)
      ensures Resolve(releases) == Success((chain[0], Identities(chain[1..])))
    {
      ResolveChain(chain, releases);
    }
  }

  /** The verdict, error included, does not depend on the order of the catalogue. */
  lemma {:induction false} ResolveOrderIndependent(a: seq<CatalogedRelease>, b: seq<CatalogedRelease>)
    requires DistinctIdentities(a) && multiset(a) == multiset(b)
    ensures DistinctIdentities(b) && Resolve(a) == Resolve(b)
  {
    PermutedDistinct(b, a);
    forall x ensures x in a <==> x in b { assert x in multiset(a) <==> x in multiset(b); }
    assert Identities(a) == Identities(b);
    assert forall h :: IsHead(h, a) <==> IsHead(h, b);
    assert forall chain :: ChainOf(chain, a) <==> ChainOf(chain, b);
    ResolveIffChain(a);
    ResolveIffChain(b);
  }
}
