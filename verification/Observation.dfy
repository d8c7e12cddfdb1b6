/**
  From retrieved artifacts to an observed release: the release constructor with its
  checks, and the fail-first observation of the three-artifact portfolio package.
 */
module Observation {
  import opened Prelude
  import opened Strings
  import opened IdentityPayload
  import CatalogText
  import Classification

  datatype SourceFormat = Csv | Xlsx | Pdf | Zip

  datatype ArtifactStructure =
    | ZipMember(memberName: Str, uncompressedSize: nat, zipHeader: Str)
    | CsvText(csvHeader: Str, hasBom: bool, terminator: CatalogText.LineTerminator)

  datatype DiscoveredArtifact = DiscoveredArtifact(role: Str, format: SourceFormat, url: Str)

  /** A discovery candidate; the fields that must stay null are not represented. */
  datatype DiscoveredRelease = DiscoveredRelease(
    source: Str, definitionVersion: int, family: Str, scheme: Str, artifacts: seq<DiscoveredArtifact>)

  datatype ValidatedArtifact = ValidatedArtifact(
    role: Str, format: SourceFormat, digest: Str, content: Bytes, observedAt: int, structure: ArtifactStructure)

  datatype ArtifactMetadata = ArtifactMetadata(role: Str, format: SourceFormat, byteLength: nat,
    structure: ArtifactStructure)

  datatype ReleaseMetadata = ReleaseMetadata(scheme: Str, artifacts: seq<ArtifactMetadata>)

  datatype ObservedRelease = ObservedRelease(
    discovered: DiscoveredRelease, artifacts: seq<ValidatedArtifact>, identity: Str,
    firstObservedAt: int, metadata: ReleaseMetadata)

  datatype ContractError =
    | NoArtifacts | DuplicateRole | RoleNotObserved(role: Str) | RoleOutsideRelease
    | IdentityInputs(cause: IdentityError) | ShapeMismatch | IdentityMismatch | TimeMismatch | MetadataMismatch

  // ---------------------------------------------------------------- constructor checks

  predicate StructureFits(format: SourceFormat, structure: ArtifactStructure) {
    match format
    case Zip => structure.ZipMember?
    case Csv => structure.CsvText?
    case _ => false
  }

  predicate ValidArtifact(digest: Bytes -> Sha256Hex, a: ValidatedArtifact) {
    IsIdentifier(a.role) && a.content != [] && a.digest == digest(a.content) && StructureFits(a.format, a.structure)
  }

  function DiscoveredRoles(d: DiscoveredRelease): (roles: seq<Str>)
    ensures |roles| == |d.artifacts| && forall i :: 0 <= i < |roles| ==> roles[i] == d.artifacts[i].role
  {
    seq(|d.artifacts|, i requires 0 <= i < |d.artifacts| => d.artifacts[i].role)
  }

  predicate ValidDiscovered(d: DiscoveredRelease) {
    && IsIdentifier(d.source) && d.definitionVersion >= 1 && IsIdentifier(d.family) && IsIdentityScheme(d.scheme)
    && (forall a :: a in d.artifacts ==> IsIdentifier(a.role) && a.url != [])
    && SortedUniqueRoles(DiscoveredRoles(d))
  }

  // ---------------------------------------------------------------- building the release

  predicate RoleLe(a: ValidatedArtifact, b: ValidatedArtifact) { StrLe(a.role, b.role) }

  function Shape(a: ValidatedArtifact): (Str, SourceFormat) { (a.role, a.format) }

  function Shapes(artifacts: seq<ValidatedArtifact>): (r: seq<(Str, SourceFormat)>)
    ensures |r| == |artifacts| && forall i :: 0 <= i < |r| ==> r[i] == (artifacts[i].role, artifacts[i].format)
  {
    seq(|artifacts|, i requires 0 <= i < |artifacts| => Shape(artifacts[i]))
  }

  function DiscoveredShapes(d: DiscoveredRelease): (r: seq<(Str, SourceFormat)>)
    ensures |r| == |d.artifacts| && forall i :: 0 <= i < |r| ==> r[i] == (d.artifacts[i].role, d.artifacts[i].format)
  {
    seq(|d.artifacts|, i requires 0 <= i < |d.artifacts| => (d.artifacts[i].role, d.artifacts[i].format))
  }

  function RolePairs(artifacts: seq<ValidatedArtifact>): (r: seq<(Str, Str)>)
    ensures |r| == |artifacts| && forall i :: 0 <= i < |r| ==> r[i] == (artifacts[i].role, artifacts[i].digest)
  {
    seq(|artifacts|, i requires 0 <= i < |artifacts| => (artifacts[i].role, artifacts[i].digest))
  }

  function ArtifactRoles(artifacts: seq<ValidatedArtifact>): set<Str> { set a | a in artifacts :: a.role }

  /** The first discovered role that was not observed in its format, in discovery order. */
  function FirstMissing(expected: seq<DiscoveredArtifact>, artifacts: seq<ValidatedArtifact>): (r: Option<Str>)
    ensures r.None? <==>
      forall e :: e in expected ==> exists a :: a in artifacts && a.role == e.role && a.format == e.format
  {
    if expected == [] then None
    else if exists a :: a in artifacts && a.role == expected[0].role && a.format == expected[0].format then
      FirstMissing(expected[1..], artifacts)
    else Some(expected[0].role)
  }

  function ReleaseIdentityHash(sha: Str -> Sha256Hex, d: DiscoveredRelease, artifacts: seq<ValidatedArtifact>)
    : Result<Sha256Hex, ContractError>
  {
    if |ArtifactRoles(artifacts)| != |artifacts| then Failure(DuplicateRole)
    else
      match FirstMissing(d.artifacts, artifacts)
      case Some(role) => Failure(RoleNotObserved(role))
      case None =>
        if |ArtifactRoles(artifacts)| != |d.artifacts| then Failure(RoleOutsideRelease)
        else
          match IdentityHash(sha, Payload(d.scheme, d.source, d.family, None, RolePairs(artifacts)))
          case Failure(e) => Failure(IdentityInputs(e))
          case Success(h) => Success(h)
  }

  function Earliest(artifacts: seq<ValidatedArtifact>): int
    requires artifacts != []
  {
    if |artifacts| == 1 then artifacts[0].observedAt
    else
      var rest := Earliest(artifacts[1..]);
      if artifacts[0].observedAt <= rest then artifacts[0].observedAt else rest
  }

  function MetadataOf(scheme: Str, artifacts: seq<ValidatedArtifact>): ReleaseMetadata {
    var ordered := Sort(artifacts, RoleLe);
    ReleaseMetadata(scheme, seq(|ordered|, i requires 0 <= i < |ordered| =>
      ArtifactMetadata(ordered[i].role, ordered[i].format, |ordered[i].content|, ordered[i].structure)))
  }

  /** The checks of the release constructor, in order. */
  function Constructed(sha: Str -> Sha256Hex, o: ObservedRelease): Result<ObservedRelease, ContractError> {
    if Shapes(o.artifacts) != DiscoveredShapes(o.discovered) then Failure(ShapeMismatch)
    else
      match ReleaseIdentityHash(sha, o.discovered, o.artifacts)
      case Failure(e) => Failure(e)
      case Success(h) =>
        if o.identity != h then Failure(IdentityMismatch)
        else if o.artifacts == [] || o.firstObservedAt != Earliest(o.artifacts) then Failure(TimeMismatch)
        else if o.metadata != MetadataOf(o.discovered.scheme, o.artifacts) then Failure(MetadataMismatch)
        else Success(o)
  }

  function FromValidatedArtifacts(sha: Str -> Sha256Hex, d: DiscoveredRelease, artifacts: seq<ValidatedArtifact>)
    : Result<ObservedRelease, ContractError>
  {
    var ordered := Sort(artifacts, RoleLe);
    if ordered == [] then Failure(NoArtifacts)
    else
      match ReleaseIdentityHash(sha, d, ordered)
      case Failure(e) => Failure(e)
      case Success(h) =>
        Constructed(sha, ObservedRelease(d, ordered, h, Earliest(ordered), MetadataOf(d.scheme, ordered)))
  }

  // ---------------------------------------------------------------- exactly when it succeeds

  lemma {:induction false} RoleLeIsTotalPreorder()
    ensures TotalPreorder(RoleLe)
  {
    StrLeIsTotalOrder();
  }

  lemma {:induction false} Ordered(artifacts: seq<ValidatedArtifact>)
    ensures SortedBy(Sort(artifacts, RoleLe), RoleLe) && multiset(Sort(artifacts, RoleLe)) == multiset(artifacts)
    ensures forall a :: a in Sort(artifacts, RoleLe) <==> a in artifacts
    ensures |Sort(artifacts, RoleLe)| == |artifacts|
  {
    RoleLeIsTotalPreorder();
    SortSorts(artifacts, RoleLe);
    SortKeeps(artifacts, RoleLe);
    forall a ensures a in Sort(artifacts, RoleLe) <==> a in artifacts {
      assert a in multiset(Sort(artifacts, RoleLe)) <==> a in multiset(artifacts);
    }
    assert |multiset(Sort(artifacts, RoleLe))| == |multiset(artifacts)|;
  }

  lemma {:induction false} ShapesOfThree(x: seq<ValidatedArtifact>, v: ValidatedArtifact, y: seq<ValidatedArtifact>)
    ensures multiset(Shapes(x + [v] + y)) == multiset{Shape(v)} + multiset(Shapes(x + y))
  {
    assert Shapes(x + [v] + y) == Shapes(x) + [Shape(v)] + Shapes(y);
    assert Shapes(x + y) == Shapes(x) + Shapes(y);
  }

  lemma {:induction false} ShapesPermute(a: seq<ValidatedArtifact>, b: seq<ValidatedArtifact>)
    requires multiset(a) == multiset(b)
    ensures multiset(Shapes(a)) == multiset(Shapes(b))
    decreases |a|
  {
    if a == [] {
      assert |multiset(b)| == 0;
    } else {
      var front, back := TakeOut(a, b);
      ShapesPermute(a[1..], front + back);
      ShapesOfThree(front, a[0], back);
      ShapesOfThree([], a[0], a[1..]);
      assert [] + [a[0]] + a[1..] == a && [] + a[1..] == a[1..];
    }
  }

  /** Sorted artifacts with the discovered shapes, as a multiset, have them in role order. */
  lemma {:induction false} SameShapesInOrder(d: DiscoveredRelease, ordered: seq<ValidatedArtifact>)
    requires ValidDiscovered(d) && SortedBy(ordered, RoleLe)
    requires multiset(Shapes(ordered)) == multiset(DiscoveredShapes(d))
    ensures Shapes(ordered) == DiscoveredShapes(d)
  {
    var le := (p: (Str, SourceFormat), q: (Str, SourceFormat)) => StrLe(p.0, q.0);
    var a, b := Shapes(ordered), DiscoveredShapes(d);
    forall i, j | 0 <= i < j < |a| ensures le(a[i], a[j]) { assert RoleLe(ordered[i], ordered[j]); }
    forall i, j | 0 <= i < j < |b| ensures le(b[i], b[j]) && b[i].0 != b[j].0 {
      assert StrLt(DiscoveredRoles(d)[i], DiscoveredRoles(d)[j]);
    }
    forall x, y | x in b && y in b && le(x, y) && le(y, x) ensures x == y {
      StrAntisymmetric(x.0, y.0);
    }
    SortedUnique(b, a, le);
  }

  lemma {:induction false} RoleCount(artifacts: seq<ValidatedArtifact>)
    requires StrictlySorted(Roles(RolePairs(artifacts)))
    ensures |ArtifactRoles(artifacts)| == |artifacts|
  {
    var roles := Roles(RolePairs(artifacts));
    DistinctCount(roles);
    forall r ensures r in ArtifactRoles(artifacts) <==> r in roles {
      if r in roles {
        var i :| 0 <= i < |roles| && roles[i] == r;
        assert artifacts[i] in artifacts;
      }
      if r in ArtifactRoles(artifacts) {
        var i :| 0 <= i < |artifacts| && artifacts[i].role == r;
        assert roles[i] == r;
      }
    }
    assert ArtifactRoles(artifacts) == set r | r in roles;
  }

  lemma {:induction false} DistinctCount(s: seq<Str>)
    requires forall i, j :: 0 <= i < j < |s| ==> s[i] != s[j]
    ensures |set x | x in s| == |s|
  {
    if s != [] {
      DistinctCount(s[1..]);
      assert (set x | x in s) == (set x | x in s[1..]) + {s[0]};
    }
  }

  lemma {:induction false} PayloadIsValid(digest: Bytes -> Sha256Hex, d: DiscoveredRelease,
                                          ordered: seq<ValidatedArtifact>)
    requires ValidDiscovered(d) && (forall a :: a in ordered ==> ValidArtifact(digest, a))
    requires Shapes(ordered) == DiscoveredShapes(d)
    ensures ValidPayload(Payload(d.scheme, d.source, d.family, None, RolePairs(ordered)))
    ensures |ordered| == |d.artifacts| && StrictlySorted(Roles(RolePairs(ordered))) && RolePairs(ordered) != []
  {
    var pairs := RolePairs(ordered);
    forall i | 0 <= i < |ordered| ensures Roles(pairs)[i] == DiscoveredRoles(d)[i] {
      assert Shapes(ordered)[i] == DiscoveredShapes(d)[i];
    }
    assert Roles(pairs) == DiscoveredRoles(d);
    forall pair | pair in pairs ensures IsSha256(pair.1) {
      var i :| 0 <= i < |ordered| && pairs[i] == pair;
      assert ordered[i] in ordered;
    }
  }

  /** In role order with the discovered shapes, every check of the identity hash passes. */
  lemma {:induction false} HashSucceeds(sha: Str -> Sha256Hex, digest: Bytes -> Sha256Hex, d: DiscoveredRelease,
                                        ordered: seq<ValidatedArtifact>)
    requires ValidDiscovered(d) && (forall a :: a in ordered ==> ValidArtifact(digest, a))
    requires Shapes(ordered) == DiscoveredShapes(d)
    ensures
      var p := Payload(d.scheme, d.source, d.family, None, RolePairs(ordered));
      && ValidPayload(p) && p.pairs != [] && IdentityHash(sha, p) == Success(sha(Encode(p)))
      && ReleaseIdentityHash(sha, d, ordered) == Success(sha(Encode(p)))
  {
    var p := Payload(d.scheme, d.source, d.family, None, RolePairs(ordered));
    PayloadIsValid(digest, d, ordered);
    StrictRolesAreCanonical(p);
    IdentityHashAccepts(sha, p);
    RoleCount(ordered);
    EveryShapeObserved(d, ordered);
  }

  lemma {:induction false} EveryShapeObserved(d: DiscoveredRelease, ordered: seq<ValidatedArtifact>)
    requires Shapes(ordered) == DiscoveredShapes(d)
    ensures forall e :: e in d.artifacts ==> exists a :: a in ordered && a.role == e.role && a.format == e.format
  {
    forall e | e in d.artifacts ensures exists a :: a in ordered && a.role == e.role && a.format == e.format {
      var i :| 0 <= i < |d.artifacts| && d.artifacts[i] == e;
      assert ordered[i] in ordered && Shapes(ordered)[i] == DiscoveredShapes(d)[i];
    }
  }

  /**
    A release is built exactly when the observed roles and formats are exactly the
    discovered ones, each once; it then holds the artifacts in role order.
   */
  lemma {:induction false} BuildsIffShapesMatch(sha: Str -> Sha256Hex, digest: Bytes -> Sha256Hex,
                                                d: DiscoveredRelease, artifacts: seq<ValidatedArtifact>)
    requires ValidDiscovered(d) && (forall a :: a in artifacts ==> ValidArtifact(digest, a))
    ensures
      var r := FromValidatedArtifacts(sha, d, artifacts);
      && (r.Success? <==> multiset(Shapes(artifacts)) == multiset(DiscoveredShapes(d)))
      && (r.Success? ==>
          && multiset(r.value.artifacts) == multiset(artifacts) && Shapes(r.value.artifacts) == DiscoveredShapes(d)
          && Classification.ValidObserved(sha, IdentityView(r.value)))
  {
    var ordered := Sort(artifacts, RoleLe);
    Ordered(artifacts);
    ShapesPermute(ordered, artifacts);
    assert |DiscoveredRoles(d)| == |d.artifacts|;
    if multiset(Shapes(artifacts)) == multiset(DiscoveredShapes(d)) {
      SameShapesInOrder(d, ordered);
      HashSucceeds(sha, digest, d, ordered);
    }
  }

  /** What classification reads of an observed release. */
  function IdentityView(o: ObservedRelease): Classification.ObservedRelease {
    Classification.ObservedRelease(o.discovered.scheme, o.discovered.source, o.discovered.family,
      RolePairs(o.artifacts), o.identity)
  }

  /** The built release, or the error, does not depend on the order of the artifacts. */
  lemma {:induction false} BuildOrderIndependent(sha: Str -> Sha256Hex, d: DiscoveredRelease,
                                                 a: seq<ValidatedArtifact>, b: seq<ValidatedArtifact>)
    requires multiset(a) == multiset(b)
    ensures FromValidatedArtifacts(sha, d, a) == FromValidatedArtifacts(sha, d, b)
  {
    var x, y := Sort(a, RoleLe), Sort(b, RoleLe);
    Ordered(a);
    Ordered(b);
    assert |multiset(x)| == |multiset(y)|;
    forall v ensures v in x <==> v in y { assert v in multiset(a) <==> v in multiset(b); }
    assert ArtifactRoles(x) == ArtifactRoles(y);
    if |ArtifactRoles(x)| == |x| {
      forall v, w | v in x && w in x && RoleLe(v, w) && RoleLe(w, v) ensures v == w {
        StrAntisymmetric(v.role, w.role);
        UniqueRole(x, v, w);
      }
      SortedUnique(x, y, RoleLe);
    }
  }

  /** When roles are as many as artifacts, a role names one artifact. */
  lemma {:induction false} UniqueRole(s: seq<ValidatedArtifact>, v: ValidatedArtifact, w: ValidatedArtifact)
    requires |ArtifactRoles(s)| == |s| && v in s && w in s && v.role == w.role
    ensures v == w
  {
    if v != w {
      var i :| 0 <= i < |s| && s[i] == v;
      var rest := s[..i] + s[i + 1..];
      assert w in rest;
      assert ArtifactRoles(s) == ArtifactRoles(rest);
      RolesBounded(rest);
    }
  }

  lemma {:induction false} RolesBounded(s: seq<ValidatedArtifact>)
    ensures |ArtifactRoles(s)| <= |s|
  {
    if s != [] {
      RolesBounded(s[1..]);
      assert ArtifactRoles(s) == ArtifactRoles(s[1..]) + {s[0].role};
    }
  }

  lemma {:induction false} EarliestIsLeast(artifacts: seq<ValidatedArtifact>)
    requires artifacts != []
    ensures exists a :: a in artifacts && a.observedAt == Earliest(artifacts)
    ensures forall a :: a in artifacts ==> Earliest(artifacts) <= a.observedAt
  {
    if |artifacts| > 1 {
      EarliestIsLeast(artifacts[1..]);
      var least :| least in artifacts[1..] && least.observedAt == Earliest(artifacts[1..]);
      assert least in artifacts && artifacts[0] in artifacts;
      assert forall a :: a in artifacts ==> a == artifacts[0] || a in artifacts[1..];
    } else {
      assert artifacts[0] in artifacts;
    }
  }

  /** The metadata row of an artifact. */
  ghost predicate Describes(m: ArtifactMetadata, a: ValidatedArtifact) {
    m.role == a.role && m.format == a.format && m.byteLength == |a.content| && m.structure == a.structure
  }

  lemma {:induction false} MetadataDescribes(scheme: Str, ordered: seq<ValidatedArtifact>)
    requires SortedBy(ordered, RoleLe)
    ensures
      var m := MetadataOf(scheme, ordered);
      && m.scheme == scheme && |m.artifacts| == |ordered|
      && forall i :: 0 <= i < |ordered| ==> Describes(m.artifacts[i], ordered[i])
  {
    SortFixed(ordered, RoleLe);
  }

  lemma {:induction false} BuiltIsConstructed(sha: Str -> Sha256Hex, d: DiscoveredRelease,
                                              artifacts: seq<ValidatedArtifact>)
    requires FromValidatedArtifacts(sha, d, artifacts).Success?
    ensures
      var r, ordered := FromValidatedArtifacts(sha, d, artifacts).value, Sort(artifacts, RoleLe);
      && r.discovered == d && r.artifacts == ordered && ordered != [] && r.firstObservedAt == Earliest(ordered)
      && r.metadata == MetadataOf(d.scheme, ordered)
      && IdentityHash(sha, Payload(d.scheme, d.source, d.family, None, RolePairs(ordered))) == Success(r.identity)
  {
  }

  /**
    What a built release says: the discovered release it was built for, the least time of
    observation, one metadata row for each artifact in order, and the hash of its own pairs.
   */
  lemma {:induction false} ReleaseSays(sha: Str -> Sha256Hex, d: DiscoveredRelease, artifacts: seq<ValidatedArtifact>)
    requires FromValidatedArtifacts(sha, d, artifacts).Success?
    ensures
      var r := FromValidatedArtifacts(sha, d, artifacts).value;
      && r.discovered == d
      && (exists a :: a in artifacts && a.observedAt == r.firstObservedAt)
      && (forall a :: a in artifacts ==> r.firstObservedAt <= a.observedAt)
      && r.metadata.scheme == d.scheme && |r.metadata.artifacts| == |r.artifacts|
      && (forall i :: 0 <= i < |r.artifacts| ==> Describes(r.metadata.artifacts[i], r.artifacts[i]))
      && IdentityHash(sha, Payload(d.scheme, d.source, d.family, None, RolePairs(r.artifacts))) == Success(r.identity)
  {
    var ordered := Sort(artifacts, RoleLe);
    BuiltIsConstructed(sha, d, artifacts);
    Ordered(artifacts);
    EarliestIsLeast(ordered);
    MetadataDescribes(d.scheme, ordered);
  }

  ghost predicate DistinctRoles(artifacts: seq<ValidatedArtifact>) {
    forall i, j :: 0 <= i < j < |artifacts| ==> artifacts[i].role != artifacts[j].role
  }

  /** What an error of the release builder says about the artifacts. */
  ghost predicate NotBuilt(d: DiscoveredRelease, artifacts: seq<ValidatedArtifact>, e: ContractError) {
    match e
    case NoArtifacts => artifacts == []
    case DuplicateRole => !DistinctRoles(artifacts)
    case RoleNotObserved(role) =>
      exists e :: e in d.artifacts && e.role == role
                  && forall a :: a in artifacts ==> !(a.role == e.role && a.format == e.format)
    case RoleOutsideRelease => exists a :: a in artifacts && forall e :: e in d.artifacts ==> e.role != a.role
    case _ => false
  }

  lemma {:induction false} RolesCounted(artifacts: seq<ValidatedArtifact>)
    ensures DistinctRoles(artifacts) ==> |ArtifactRoles(artifacts)| == |artifacts|
  {
    var roles := Roles(RolePairs(artifacts));
    forall r ensures r in ArtifactRoles(artifacts) <==> r in roles {
      if r in roles {
        var i :| 0 <= i < |roles| && roles[i] == r;
        assert artifacts[i] in artifacts;
      }
      if r in ArtifactRoles(artifacts) {
        var i :| 0 <= i < |artifacts| && artifacts[i].role == r;
        assert roles[i] == r;
      }
    }
    assert ArtifactRoles(artifacts) == set r | r in roles;
    if DistinctRoles(artifacts) { DistinctCount(roles); }
  }

  lemma {:induction false} MissingIsNamed(expected: seq<DiscoveredArtifact>, artifacts: seq<ValidatedArtifact>)
    ensures FirstMissing(expected, artifacts).Some? ==>
      exists e :: e in expected && e.role == FirstMissing(expected, artifacts).value
                  && forall a :: a in artifacts ==> !(a.role == e.role && a.format == e.format)
  {
    if expected != [] {
      MissingIsNamed(expected[1..], artifacts);
      assert expected[0] in expected && forall e :: e in expected[1..] ==> e in expected;
    }
  }

  lemma {:induction false} DistinctShapes(artifacts: seq<ValidatedArtifact>)
    requires |ArtifactRoles(artifacts)| == |artifacts|
    ensures forall i, j :: 0 <= i < j < |artifacts| ==> Shapes(artifacts)[i] != Shapes(artifacts)[j]
  {
    forall i, j | 0 <= i < j < |artifacts| ensures artifacts[i].role != artifacts[j].role {
      if artifacts[i].role == artifacts[j].role {
        var rest := artifacts[..j] + artifacts[j + 1..];
        assert rest[i] == artifacts[i] && rest[i] in rest;
        assert ArtifactRoles(artifacts) == ArtifactRoles(rest);
        RolesBounded(rest);
      }
    }
  }

  /** Once the checks on roles pass, the shapes observed are the shapes discovered. */
  lemma {:induction false} ChecksMatchShapes(d: DiscoveredRelease, artifacts: seq<ValidatedArtifact>)
    requires ValidDiscovered(d) && |ArtifactRoles(artifacts)| == |artifacts| == |d.artifacts|
    requires FirstMissing(d.artifacts, artifacts).None?
    ensures multiset(Shapes(artifacts)) == multiset(DiscoveredShapes(d))
  {
    var seen, due := Shapes(artifacts), DiscoveredShapes(d);
    DistinctShapes(artifacts);
    forall i, j | 0 <= i < j < |due| ensures due[i] != due[j] {
      assert StrLt(DiscoveredRoles(d)[i], DiscoveredRoles(d)[j]);
    }
    forall x | x in due ensures x in seen {
      var i :| 0 <= i < |due| && due[i] == x;
      assert d.artifacts[i] in d.artifacts;
      var a :| a in artifacts && a.role == d.artifacts[i].role && a.format == d.artifacts[i].format;
      var j :| 0 <= j < |artifacts| && artifacts[j] == a;
      assert seen[j] == x;
    }
    AllDrawn(due, seen);
  }

  lemma {:induction false} AllDrawn<T>(part: seq<T>, whole: seq<T>)
    requires |part| == |whole| && forall x :: x in part ==> x in whole
    requires forall i, j :: 0 <= i < j < |part| ==> part[i] != part[j]
    requires forall i, j :: 0 <= i < j < |whole| ==> whole[i] != whole[j]
    ensures multiset(whole) == multiset(part)
  {
    Distinct(part);
    Distinct(whole);
    var rest := multiset(whole) - multiset(part);
    assert multiset(whole) == multiset(part) + rest;
    assert |multiset(whole)| == |multiset(part)| + |rest|;
  }

  lemma {:induction false} SomeRoleOutside(d: DiscoveredRelease, artifacts: seq<ValidatedArtifact>)
    requires ValidDiscovered(d) && FirstMissing(d.artifacts, artifacts).None?
    requires |ArtifactRoles(artifacts)| != |d.artifacts|
    ensures exists a :: a in artifacts && forall e :: e in d.artifacts ==> e.role != a.role
  {
    var due := DiscoveredRoles(d);
    forall i, j | 0 <= i < j < |due| ensures due[i] != due[j] { assert StrLt(due[i], due[j]); }
    DistinctCount(due);
    var roles := set r | r in due;
    forall r | r in roles ensures r in ArtifactRoles(artifacts) {
      var i :| 0 <= i < |due| && due[i] == r;
      assert d.artifacts[i] in d.artifacts;
    }
    assert ArtifactRoles(artifacts) != roles;
    var r :| r in ArtifactRoles(artifacts) && r !in roles;
    var a :| a in artifacts && a.role == r;
    forall e | e in d.artifacts ensures e.role != a.role {
      var i :| 0 <= i < |d.artifacts| && d.artifacts[i] == e;
      assert due[i] == e.role;
    }
  }

  /** When no release is built, it is for one of these four reasons, and the error names it. */
  lemma {:induction false} BuildRefused(sha: Str -> Sha256Hex, digest: Bytes -> Sha256Hex, d: DiscoveredRelease,
                                        artifacts: seq<ValidatedArtifact>)
    requires ValidDiscovered(d) && (forall a :: a in artifacts ==> ValidArtifact(digest, a))
    requires FromValidatedArtifacts(sha, d, artifacts).Failure?
    ensures NotBuilt(d, artifacts, FromValidatedArtifacts(sha, d, artifacts).error)
  {
    var ordered := Sort(artifacts, RoleLe);
    Ordered(artifacts);
    BuildsIffShapesMatch(sha, digest, d, artifacts);
    ShapesPermute(ordered, artifacts);
    RolesCounted(artifacts);
    assert ArtifactRoles(ordered) == ArtifactRoles(artifacts);
    MissingIsNamed(d.artifacts, ordered);
    if |ArtifactRoles(ordered)| == |ordered| && FirstMissing(d.artifacts, ordered).None? {
      if |ordered| == |d.artifacts| { ChecksMatchShapes(d, ordered); } else { SomeRoleOutside(d, ordered); }
    }
  }

  // ---------------------------------------------------------------- one observation of the package

  const CONCEPT_CATALOG: Str := Ascii("concept_catalog")
  const HISTORICAL_SERIES_DATA: Str := Ascii("historical_series_data")
  const INSTITUTION_CATALOG: Str := Ascii("institution_catalog")

  /** Role order, as a release lists its artifacts. */
  const REQUIRED_ROLES: seq<(Str, SourceFormat)> :=
    [(CONCEPT_CATALOG, Csv), (HISTORICAL_SERIES_DATA, Zip), (INSTITUTION_CATALOG, Csv)]

  /** Catalogues first, then the archive. */
  const RETRIEVAL_ORDER: seq<Str> := [CONCEPT_CATALOG, INSTITUTION_CATALOG, HISTORICAL_SERIES_DATA]

  /** What retrieving and validating one artifact comes to. */
  datatype Attempt =
    | Refused(observedAt: Option<int>)                       // a discovery error, with the response time if any
    | Delivered(content: Bytes, at: int, structure: Option<ArtifactStructure>)  // None: validation refused it
    | Escaped                                                // an error that is not a discovery error

  datatype Outcome =
    | Release(release: ObservedRelease)
    | ArtifactFailure(role: Str, failedAt: int)
    | Raised

  /** The configured adapter: its endpoint URLs and its optional clock. */
  datatype Adapter = Adapter(definitionVersion: int, urls: map<Str, Str>, clock: Option<int>)

  predicate ValidAdapter(a: Adapter) {
    && a.definitionVersion >= 1
    && a.urls.Keys == {CONCEPT_CATALOG, HISTORICAL_SERIES_DATA, INSTITUTION_CATALOG}
    && forall r :: r in a.urls ==> a.urls[r] != []
  }

  /** The configured artifact of a role. */
  function Target(a: Adapter, role: Str): DiscoveredArtifact
    requires role in a.urls
  {
    DiscoveredArtifact(role, if role == HISTORICAL_SERIES_DATA then Zip else Csv, a.urls[role])
  }

  function Discover(a: Adapter): DiscoveredRelease
    requires ValidAdapter(a)
  {
    DiscoveredRelease(
      Ascii("cnbv_portfolio"), a.definitionVersion, Ascii("serie_historica_banca_multiple_40"),
      Ascii("cnbv_portfolio.observed_artifact_set.v1"),
      [Target(a, CONCEPT_CATALOG), Target(a, HISTORICAL_SERIES_DATA), Target(a, INSTITUTION_CATALOG)])
  }

  lemma {:induction false} RolesAreIdentifiers()
    ensures forall r :: r in RETRIEVAL_ORDER ==> IsIdentifier(r)
    ensures StrictlySorted([CONCEPT_CATALOG, HISTORICAL_SERIES_DATA, INSTITUTION_CATALOG])
  {
    forall i | 0 <= i < |CONCEPT_CATALOG| ensures SnakeAt(CONCEPT_CATALOG, i, false) {}
    forall i | 0 <= i < |HISTORICAL_SERIES_DATA| ensures SnakeAt(HISTORICAL_SERIES_DATA, i, false) {}
    forall i | 0 <= i < |INSTITUTION_CATALOG| ensures SnakeAt(INSTITUTION_CATALOG, i, false) {}
    assert CONCEPT_CATALOG[0] < HISTORICAL_SERIES_DATA[0] < INSTITUTION_CATALOG[0];
  }

  lemma {:induction false} PackageNamesAreValid()
    ensures IsIdentifier(Ascii("cnbv_portfolio")) && IsIdentifier(Ascii("serie_historica_banca_multiple_40"))
    ensures IsIdentityScheme(Ascii("cnbv_portfolio.observed_artifact_set.v1"))
  {
    var source, family := Ascii("cnbv_portfolio"), Ascii("serie_historica_banca_multiple_40");
    var scheme := Ascii("cnbv_portfolio.observed_artifact_set.v1");
    forall i | 0 <= i < |source| ensures SnakeAt(source, i, false) {}
    forall i | 0 <= i < |family| ensures SnakeAt(family, i, false) {}
    forall i | 0 <= i < |scheme| ensures SnakeAt(scheme, i, true) {}
    assert scheme[14] == '.' as int;
  }

  /** The configured release satisfies its constructor, roles in role order. */
  lemma {:induction false} DiscoveredIsValid(a: Adapter)
    requires ValidAdapter(a)
    ensures ValidDiscovered(Discover(a)) && DiscoveredShapes(Discover(a)) == REQUIRED_ROLES
    ensures Discover(a).definitionVersion == a.definitionVersion && Discover(a).source == Ascii("cnbv_portfolio")
    ensures Discover(a).family == Ascii("serie_historica_banca_multiple_40")
    ensures Discover(a).scheme == Ascii("cnbv_portfolio.observed_artifact_set.v1")
    ensures forall e :: e in Discover(a).artifacts ==> e.role in a.urls && e.url == a.urls[e.role]
  {
    RolesAreIdentifiers();
    PackageNamesAreValid();
    assert DiscoveredRoles(Discover(a)) == [CONCEPT_CATALOG, HISTORICAL_SERIES_DATA, INSTITUTION_CATALOG];
    assert CONCEPT_CATALOG in RETRIEVAL_ORDER && HISTORICAL_SERIES_DATA in RETRIEVAL_ORDER
      && INSTITUTION_CATALOG in RETRIEVAL_ORDER;
  }

  /** The artifact validation hands over, when it accepts. */
  function Accept(digest: Bytes -> Sha256Hex, artifact: DiscoveredArtifact, attempt: Attempt)
    : (r: Option<ValidatedArtifact>)
    ensures r.Some? ==> Shape(r.value) == (artifact.role, artifact.format)
    ensures r.Some? && IsIdentifier(artifact.role) ==> ValidArtifact(digest, r.value)
  {
    if attempt.Delivered? && attempt.content != [] && attempt.structure.Some?
      && StructureFits(artifact.format, attempt.structure.value)
    then Some(ValidatedArtifact(artifact.role, artifact.format, digest(attempt.content), attempt.content, attempt.at,
      attempt.structure.value))
    else None
  }

  /** The failure row, or an error of its own when no time of observation can be supplied. */
  function FailureFor(role: Str, attempt: Attempt, clock: Option<int>): Outcome {
    var seen := match attempt
      case Refused(t) => t
      case Delivered(_, at, _) => Some(at)
      case Escaped => None;
    if attempt.Escaped? then Raised
    else if seen.Some? then ArtifactFailure(role, seen.value)
    else if clock.Some? then ArtifactFailure(role, clock.value)
    else Raised
  }

  /** The world's answer to the n-th retrieval, validated. */
  ghost function Accepts(digest: Bytes -> Sha256Hex, a: Adapter, fetch: (nat, DiscoveredArtifact) -> Attempt,
                         n: nat): Option<ValidatedArtifact>
    requires ValidAdapter(a) && n < 3
  {
    var target := Target(a, RETRIEVAL_ORDER[n]);
    Accept(digest, target, fetch(n, target))
  }

  /** The n-th artifact asked for: the two catalogues as CSV, then the archive as ZIP, each at its configured URL. */
  function Asked(a: Adapter, n: nat): DiscoveredArtifact
    requires ValidAdapter(a) && n < 3
  {
    var role := if n == 0 then CONCEPT_CATALOG else if n == 1 then INSTITUTION_CATALOG else HISTORICAL_SERIES_DATA;
    DiscoveredArtifact(role, if n == 2 then Zip else Csv, a.urls[role])
  }

  /** The n-th artifact came with content, in a structure of its format. */
  ghost predicate Passes(a: Adapter, fetch: (nat, DiscoveredArtifact) -> Attempt, n: nat)
    requires ValidAdapter(a) && n < 3
  {
    var attempt := fetch(n, Asked(a, n));
    && attempt.Delivered? && attempt.content != [] && attempt.structure.Some?
    && (if n == 2 then attempt.structure.value.ZipMember? else attempt.structure.value.CsvText?)
  }

  /** What it is then recorded as. */
  ghost function Seen(digest: Bytes -> Sha256Hex, a: Adapter, fetch: (nat, DiscoveredArtifact) -> Attempt, n: nat)
    : ValidatedArtifact
    requires ValidAdapter(a) && n < 3 && Passes(a, fetch, n)
  {
    var asked := Asked(a, n);
    var attempt := fetch(n, asked);
    ValidatedArtifact(asked.role, asked.format, digest(attempt.content), attempt.content, attempt.at,
      attempt.structure.value)
  }

  /** A failure is recorded for its role with the time it was seen, else by the clock, else it is raised. */
  ghost predicate Records(outcome: Outcome, role: Str, attempt: Attempt, clock: Option<int>) {
    match attempt
    case Escaped => outcome == Raised
    case Delivered(_, at, _) => outcome == ArtifactFailure(role, at)
    case Refused(Some(at)) => outcome == ArtifactFailure(role, at)
    case Refused(None) => outcome == if clock.Some? then ArtifactFailure(role, clock.value) else Raised
  }

  lemma {:induction false} FailureIsRecorded(role: Str, attempt: Attempt, clock: Option<int>)
    ensures Records(FailureFor(role, attempt, clock), role, attempt, clock)
  {
  }

  lemma {:induction false} RolesAreApart()
    ensures CONCEPT_CATALOG != HISTORICAL_SERIES_DATA && INSTITUTION_CATALOG != HISTORICAL_SERIES_DATA
  {
    assert CONCEPT_CATALOG[0] == 'c' as int && HISTORICAL_SERIES_DATA[0] == 'h' as int
      && INSTITUTION_CATALOG[0] == 'i' as int;
  }

  /** A release of the package: the three artifacts as seen, in role order, with a valid identity. */
  ghost predicate IsPackage(sha: Str -> Sha256Hex, digest: Bytes -> Sha256Hex, a: Adapter,
                            fetch: (nat, DiscoveredArtifact) -> Attempt, release: ObservedRelease)
    requires ValidAdapter(a)
  {
    && Passes(a, fetch, 0) && Passes(a, fetch, 1) && Passes(a, fetch, 2)
    && multiset(release.artifacts)
       == multiset([Seen(digest, a, fetch, 0), Seen(digest, a, fetch, 1), Seen(digest, a, fetch, 2)])
    && Shapes(release.artifacts) == REQUIRED_ROLES && Classification.ValidObserved(sha, IdentityView(release))
  }

  lemma {:induction false} AcceptsIff(digest: Bytes -> Sha256Hex, a: Adapter,
                                      fetch: (nat, DiscoveredArtifact) -> Attempt, n: nat)
    requires ValidAdapter(a) && n < 3
    ensures RETRIEVAL_ORDER[n] in a.urls && Target(a, RETRIEVAL_ORDER[n]) == Asked(a, n)
    ensures Accepts(digest, a, fetch, n) == if Passes(a, fetch, n) then Some(Seen(digest, a, fetch, n)) else None
  {
    RolesAreApart();
  }

  /**
    Retrieves and validates in catalogue-then-archive order, stopping at the first failure.
    `fetch` is an arbitrary world; `requested` lists the roles that were retrieved.
   */
  method Observe(sha: Str -> Sha256Hex, digest: Bytes -> Sha256Hex, a: Adapter,
                 fetch: (nat, DiscoveredArtifact) -> Attempt)
    returns (outcome: Outcome, requested: seq<Str>)
    requires ValidAdapter(a)
    // the roles requested are a prefix of the retrieval order, and nothing follows the first failure
    ensures requested != [] && requested <= RETRIEVAL_ORDER
    ensures forall n :: 0 <= n < |requested| - 1 ==> Passes(a, fetch, n)
    // a release comes out exactly when all three pass, it holds exactly what was seen, and building it never fails
    ensures outcome.Release? <==> |requested| == 3 && Passes(a, fetch, 2)
    ensures outcome.Release? ==> IsPackage(sha, digest, a, fetch, outcome.release)
    // otherwise the failure names the last role requested, and the time at which it was seen
    ensures !outcome.Release? ==>
      var n := |requested| - 1;
      !Passes(a, fetch, n) && Records(outcome, RETRIEVAL_ORDER[n], fetch(n, Asked(a, n)), a.clock)
  {
    var discovered := Discover(a);
    var validated: seq<ValidatedArtifact> := [];
    requested := [];
    for n := 0 to 3
      invariant requested == RETRIEVAL_ORDER[..n] && |validated| == n
      invariant forall i :: 0 <= i < n ==> Passes(a, fetch, i) && validated[i] == Seen(digest, a, fetch, i)
    {
      AcceptsIff(digest, a, fetch, n);
      var role := RETRIEVAL_ORDER[n];
      var artifact := Target(a, role);
      requested := requested + [role];
      var attempt := fetch(n, artifact);
      var accepted := Accept(digest, artifact, attempt);
      if accepted.None? {
        FailureIsRecorded(role, attempt, a.clock);
        return FailureFor(role, attempt, a.clock), requested;
      }
      validated := validated + [accepted.value];
    }
    AcceptedBuilds(sha, digest, a, fetch, validated);
    var built := FromValidatedArtifacts(sha, discovered, validated);
    return Release(built.value), requested;
  }

  lemma {:induction false} PackageShapes(a: Adapter, validated: seq<ValidatedArtifact>)
    requires ValidAdapter(a) && |validated| == 3
    requires forall i :: 0 <= i < 3 ==>
      Shape(validated[i]) == (RETRIEVAL_ORDER[i], Target(a, RETRIEVAL_ORDER[i]).format)
    ensures multiset(Shapes(validated)) == multiset(REQUIRED_ROLES)
  {
    RolesAreIdentifiers();
    var s := Shapes(validated);
    assert s[0] == (CONCEPT_CATALOG, Csv) && s[1] == (INSTITUTION_CATALOG, Csv)
      && s[2] == (HISTORICAL_SERIES_DATA, Zip);
    assert s == [s[0], s[1], s[2]];
  }

  /** Three validated artifacts, in retrieval order, always make a release. */
  lemma {:induction false} PackageBuilds(sha: Str -> Sha256Hex, digest: Bytes -> Sha256Hex, a: Adapter,
                                         validated: seq<ValidatedArtifact>)
    requires ValidAdapter(a) && |validated| == 3
    requires forall v :: v in validated ==> ValidArtifact(digest, v)
    requires forall i :: 0 <= i < 3 ==>
      Shape(validated[i]) == (RETRIEVAL_ORDER[i], Target(a, RETRIEVAL_ORDER[i]).format)
    ensures
      var r := FromValidatedArtifacts(sha, Discover(a), validated);
      && r.Success? && Shapes(r.value.artifacts) == REQUIRED_ROLES
      && Classification.ValidObserved(sha, IdentityView(r.value))
      && multiset(r.value.artifacts) == multiset(validated)
  {
    DiscoveredIsValid(a);
    PackageShapes(a, validated);
    BuildsIffShapesMatch(sha, digest, Discover(a), validated);
  }

  lemma {:induction false} SeenIsValid(digest: Bytes -> Sha256Hex, a: Adapter,
                                       fetch: (nat, DiscoveredArtifact) -> Attempt, n: nat)
    requires ValidAdapter(a) && n < 3 && Passes(a, fetch, n)
    ensures RETRIEVAL_ORDER[n] in a.urls
    ensures
      var v := Seen(digest, a, fetch, n);
      ValidArtifact(digest, v) && Shape(v) == (RETRIEVAL_ORDER[n], Target(a, RETRIEVAL_ORDER[n]).format)
  {
    RolesAreIdentifiers();
    AcceptsIff(digest, a, fetch, n);
    assert RETRIEVAL_ORDER[n] in RETRIEVAL_ORDER;
  }

  /** Three artifacts that passed are valid, so they make the release of the package. */
  lemma {:induction false} AcceptedBuilds(sha: Str -> Sha256Hex, digest: Bytes -> Sha256Hex, a: Adapter,
                                          fetch: (nat, DiscoveredArtifact) -> Attempt,
                                          validated: seq<ValidatedArtifact>)
    requires ValidAdapter(a) && |validated| == 3
    requires forall i :: 0 <= i < 3 ==> Passes(a, fetch, i) && validated[i] == Seen(digest, a, fetch, i)
    ensures
      var r := FromValidatedArtifacts(sha, Discover(a), validated);
      r.Success? && IsPackage(sha, digest, a, fetch, r.value)
  {
    SeenIsValid(digest, a, fetch, 0);
    SeenIsValid(digest, a, fetch, 1);
    SeenIsValid(digest, a, fetch, 2);
    ThreeOf(validated);
    PackageBuilds(sha, digest, a, validated);
  }

  lemma {:induction false} ThreeOf<T>(s: seq<T>)
    requires |s| == 3
    ensures s == [s[0], s[1], s[2]] && forall x :: x in s <==> x == s[0] || x == s[1] || x == s[2]
  {
  }
}
