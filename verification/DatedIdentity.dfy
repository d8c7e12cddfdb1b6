/**
  Dated identity contracts of the editorial configuration: pairwise interval checks that
  make every date-indexed lookup single-valued.  Dates are day numbers.
 */
module DatedIdentity {
  import opened Prelude
  import opened PyText

  /** Both ends included; no end means open. */
  datatype Validity = Validity(start: int, end: Option<int>)

  predicate Ordered(v: Validity) { v.end.Some? ==> v.start <= v.end.value }

  predicate Covers(v: Validity, date: int) { v.start <= date && (v.end.Some? ==> date <= v.end.value) }

  predicate RangesOverlap(left: Validity, right: Validity) {
    (left.end.None? || right.start <= left.end.value) && (right.end.None? || left.start <= right.end.value)
  }

  /** Two ordered ranges overlap exactly when some date lies in both. */
  lemma {:induction false} OverlapIffCommonDate(left: Validity, right: Validity)
    requires Ordered(left) && Ordered(right)
    ensures RangesOverlap(left, right) <==> exists date :: Covers(left, date) && Covers(right, date)
  {
    if RangesOverlap(left, right) {
      var date := if left.start <= right.start then right.start else left.start;
      assert Covers(left, date) && Covers(right, date);
    }
  }

  // ---------------------------------------------------------------- single-valued lookup

  /** A record that holds an identity during a range. */
  datatype Dated<K> = Dated(key: K, validity: Validity)

  ghost predicate AllOrdered<K>(records: seq<Dated<K>>) {
    forall i :: 0 <= i < |records| ==> Ordered(records[i].validity)
  }

  /** The positions of the records that hold an identity on a date. */
  function Lookup<K(==)>(records: seq<Dated<K>>, key: K, date: int): set<int> {
    set i | 0 <= i < |records| && records[i].key == key && Covers(records[i].validity, date)
  }

  /** On every date every identity has at most one covering record. */
  ghost predicate SingleValued<K(!new)>(records: seq<Dated<K>>) {
    forall key: K, date: int :: |Lookup(records, key, date)| <= 1
  }

  predicate Clash<K(==)>(a: Dated<K>, b: Dated<K>) { a.key == b.key && RangesOverlap(a.validity, b.validity) }

  ghost predicate PairwiseClear<K>(records: seq<Dated<K>>) {
    forall i, j :: 0 <= i < j < |records| ==> !Clash(records[i], records[j])
  }

  lemma {:induction false} TwoInLookup<K(!new)>(records: seq<Dated<K>>, key: K, date: int, i: int, j: int)
    requires i in Lookup(records, key, date) && j in Lookup(records, key, date) && i != j
    ensures |Lookup(records, key, date)| > 1
  {
    var s := Lookup(records, key, date);
    assert |s| == |s - {i}| + 1 && j in s - {i};
  }

  lemma {:induction false} PickTwo<T>(s: set<T>) returns (a: T, b: T)
    requires |s| > 1
    ensures a in s && b in s && a != b
  {
    assert s != {};
    a :| a in s;
    assert |s - {a}| == |s| - 1;
    b :| b in s - {a};
  }

  /** The pairwise checks pass exactly when every lookup is single-valued. */
  lemma {:induction false} PairwiseIffSingleValued<K(!new)>(records: seq<Dated<K>>)
    requires AllOrdered(records)
    ensures PairwiseClear(records) <==> SingleValued(records)
  {
    if !PairwiseClear(records) {
      var i, j :| 0 <= i < j < |records| && Clash(records[i], records[j]);
      ClashOnSomeDate(records, i, j);
    }
    forall key: K, date: int | |Lookup(records, key, date)| > 1 ensures !PairwiseClear(records) {
      var x, y := PickTwo(Lookup(records, key, date));
      var i, j := if x < y then x else y, if x < y then y else x;
      OverlapIffCommonDate(records[i].validity, records[j].validity);
      assert Clash(records[i], records[j]);
    }
  }

  lemma {:induction false} ClashOnSomeDate<K(!new)>(records: seq<Dated<K>>, i: int, j: int)
    requires AllOrdered(records) && 0 <= i < j < |records| && Clash(records[i], records[j])
    ensures exists date: int :: |Lookup(records, records[i].key, date)| > 1
  {
    OverlapIffCommonDate(records[i].validity, records[j].validity);
    var date :| Covers(records[i].validity, date) && Covers(records[j].validity, date);
    TwoInLookup(records, records[i].key, date, i, j);
  }

  /** The nested loop over a record and every later one. */
  method FindClash<K(==,!new)>(records: seq<Dated<K>>) returns (found: Option<(int, int)>)
    requires AllOrdered(records)
    ensures found.None? <==> SingleValued(records)
    ensures found.Some? ==>
      0 <= found.value.0 < found.value.1 < |records| && Clash(records[found.value.0], records[found.value.1])
  {
    PairwiseIffSingleValued(records);
    for index := 0 to |records|
      invariant forall i, j :: 0 <= i < index && i < j < |records| ==> !Clash(records[i], records[j])
    {
      for other := index + 1 to |records|
        invariant forall j :: index < j < other ==> !Clash(records[index], records[j])
      {
        if Clash(records[index], records[other]) { return Some((index, other)); }
      }
    }
    return None;
  }

  // ---------------------------------------------------------------- records of several owners

  function Flat<T>(lists: seq<seq<T>>): seq<T> {
    if lists == [] then [] else Flat(lists[..|lists| - 1]) + lists[|lists| - 1]
  }

  /** The k-th record of the i-th owner. */
  predicate IsPlace<T>(lists: seq<seq<T>>, i: int, k: int) { 0 <= i < |lists| && 0 <= k < |lists[i]| }

  /** No two records, of one owner or of two, clash. */
  ghost predicate PlacesClear<K>(lists: seq<seq<Dated<K>>>) {
    forall i, k, j, l :: IsPlace(lists, i, k) && IsPlace(lists, j, l) && (i != j || k != l) ==>
      !Clash(lists[i][k], lists[j][l])
  }

  lemma {:induction false} InFlat<T>(lists: seq<seq<T>>, x: T)
    ensures x in Flat(lists) <==> exists i, k :: IsPlace(lists, i, k) && lists[i][k] == x
  {
    if lists != [] {
      var n := |lists| - 1;
      var front, last := lists[..n], lists[n];
      InFlat(front, x);
      if x in Flat(front) {
        var i, k :| IsPlace(front, i, k) && front[i][k] == x;
        assert IsPlace(lists, i, k) && lists[i][k] == x;
      }
      if x in last {
        var k :| 0 <= k < |last| && last[k] == x;
        assert IsPlace(lists, n, k);
      }
      forall i, k | IsPlace(lists, i, k) && lists[i][k] == x ensures x in Flat(lists) {
        if i < n { assert IsPlace(front, i, k) && front[i][k] == x; }
      }
    }
  }

  /** None of the first clashes with one of the second. */
  ghost predicate Apart<K>(a: seq<Dated<K>>, b: seq<Dated<K>>) {
    forall x, y :: x in a && y in b ==> !Clash(x, y)
  }

  lemma {:induction false} ClearJoin<K>(a: seq<Dated<K>>, b: seq<Dated<K>>)
    ensures PairwiseClear(a + b) <==> PairwiseClear(a) && PairwiseClear(b) && Apart(a, b)
  {
    var s := a + b;
    if PairwiseClear(s) {
      forall i, j | 0 <= i < j < |a| ensures !Clash(a[i], a[j]) { assert s[i] == a[i] && s[j] == a[j]; }
      forall i, j | 0 <= i < j < |b| ensures !Clash(b[i], b[j]) { assert s[|a| + i] == b[i] && s[|a| + j] == b[j]; }
      forall x, y | x in a && y in b ensures !Clash(x, y) {
        var i :| 0 <= i < |a| && a[i] == x;
        var j :| 0 <= j < |b| && b[j] == y;
        assert s[i] == x && s[|a| + j] == y;
      }
    }
    if PairwiseClear(a) && PairwiseClear(b) && Apart(a, b) {
      forall i, j | 0 <= i < j < |s| ensures !Clash(s[i], s[j]) {
        if j < |a| { assert s[i] == a[i] && s[j] == a[j]; }
        else if i >= |a| { assert s[i] == b[i - |a|] && s[j] == b[j - |a|]; }
        else { assert s[i] == a[i] && s[i] in a && s[j] == b[j - |a|] && s[j] in b; }
      }
    }
  }

  lemma {:induction false} FlatClear<K>(lists: seq<seq<Dated<K>>>)
    ensures PairwiseClear(Flat(lists)) <==> PlacesClear(lists)
  {
    if lists != [] {
      var n := |lists| - 1;
      FlatClear(lists[..n]);
      ClearJoin(Flat(lists[..n]), lists[n]);
      PlacesSplit(lists);
    }
  }

  lemma {:induction false} PlacesSplit<K>(lists: seq<seq<Dated<K>>>)
    requires lists != []
    ensures
      var front, last := lists[..|lists| - 1], lists[|lists| - 1];
      PlacesClear(lists) <==> PlacesClear(front) && PairwiseClear(last) && Apart(Flat(front), last)
  {
    var n := |lists| - 1;
    var front, last := lists[..n], lists[n];
    if PlacesClear(lists) {
      forall i, k, j, l | IsPlace(front, i, k) && IsPlace(front, j, l) && (i != j || k != l)
        ensures !Clash(front[i][k], front[j][l])
      {
        assert IsPlace(lists, i, k) && IsPlace(lists, j, l);
      }
      forall k, l | 0 <= k < l < |last| ensures !Clash(last[k], last[l]) {
        assert IsPlace(lists, n, k) && IsPlace(lists, n, l);
      }
      forall x, y | x in Flat(front) && y in last ensures !Clash(x, y) {
        InFlat(front, x);
        var i, k :| IsPlace(front, i, k) && front[i][k] == x;
        var l :| 0 <= l < |last| && last[l] == y;
        assert IsPlace(lists, i, k) && IsPlace(lists, n, l);
      }
    }
    if PlacesClear(front) && PairwiseClear(last) && Apart(Flat(front), last) {
      forall i, k, j, l | IsPlace(lists, i, k) && IsPlace(lists, j, l) && (i != j || k != l)
        ensures !Clash(lists[i][k], lists[j][l])
      {
        PlacesMeet(lists, i, k, j, l);
      }
    }
  }

  lemma {:induction false} PlacesMeet<K>(lists: seq<seq<Dated<K>>>, i: int, k: int, j: int, l: int)
    requires IsPlace(lists, i, k) && IsPlace(lists, j, l) && (i != j || k != l)
    requires
      var front, last := lists[..|lists| - 1], lists[|lists| - 1];
      PlacesClear(front) && PairwiseClear(last) && Apart(Flat(front), last)
    ensures !Clash(lists[i][k], lists[j][l])
  {
    var n := |lists| - 1;
    var front := lists[..n];
    if i < n { assert IsPlace(front, i, k) && front[i] == lists[i]; InFlat(front, lists[i][k]); }
    if j < n { assert IsPlace(front, j, l) && front[j] == lists[j]; InFlat(front, lists[j][l]); }
    ClashIsSymmetric(lists[i][k], lists[j][l]);
  }

  lemma {:induction false} ClashIsSymmetric<K>(a: Dated<K>, b: Dated<K>)
    ensures Clash(a, b) <==> Clash(b, a)
  {
  }

  /** Two records hold one identity on one day. */
  ghost predicate Collide<K>(a: Dated<K>, b: Dated<K>) {
    a.key == b.key && exists date :: Covers(a.validity, date) && Covers(b.validity, date)
  }

  /** Lookup over all owners is single-valued exactly when no two records hold one identity on one day. */
  lemma {:induction false} FlatSingleValued<K(!new)>(lists: seq<seq<Dated<K>>>)
    requires forall i, k :: IsPlace(lists, i, k) ==> Ordered(lists[i][k].validity)
    ensures SingleValued(Flat(lists)) <==>
      forall i, k, j, l :: IsPlace(lists, i, k) && IsPlace(lists, j, l) && (i != j || k != l) ==>
        !Collide(lists[i][k], lists[j][l])
  {
    forall f | 0 <= f < |Flat(lists)| ensures Ordered(Flat(lists)[f].validity) {
      InFlat(lists, Flat(lists)[f]);
    }
    PairwiseIffSingleValued(Flat(lists));
    FlatClear(lists);
    forall i: int, k: int, j: int, l: int | IsPlace(lists, i, k) && IsPlace(lists, j, l)
      ensures Clash(lists[i][k], lists[j][l]) <==> Collide(lists[i][k], lists[j][l])
    {
      OverlapIffCommonDate(lists[i][k].validity, lists[j][l].validity);
    }
  }

  // ---------------------------------------------------------------- duplicates

  ghost predicate Distinct(values: seq<string>) { forall i, j :: 0 <= i < j < |values| ==> values[i] != values[j] }

  ghost predicate Repeats(values: seq<string>, v: string) {
    exists i, j :: 0 <= i < j < |values| && values[i] == v && values[j] == v
  }

  /** The first value that repeats an earlier one. */
  method Duplicate(values: seq<string>) returns (d: Option<string>)
    ensures d.None? <==> Distinct(values)
    ensures d.Some? ==>
      exists j :: 0 <= j < |values| && values[j] == d.value && values[j] in values[..j] && Distinct(values[..j])
    ensures d.Some? ==> Repeats(values, d.value)
  {
    var seen: set<string> := {};
    for k := 0 to |values|
      invariant seen == set v | v in values[..k]
      invariant Distinct(values[..k])
    {
      if values[k] in seen { return Some(values[k]); }
      seen := seen + {values[k]};
      assert values[..k + 1] == values[..k] + [values[k]];
    }
    assert values[..|values|] == values;
    return None;
  }

  // ---------------------------------------------------------------- institutions

  datatype Registration = Registration(regulator: string, kind: string, code: string, validity: Validity)

  datatype Alias = Alias(value: string, source: string, validity: Validity)

  datatype Membership = Membership(cohort: string, validity: Validity)

  datatype Institution = Institution(
    code: string, registrations: seq<Registration>, aliases: seq<Alias>, cohorts: seq<Membership>)

  datatype InstitutionsDocument = InstitutionsDocument(cohorts: seq<string>, institutions: seq<Institution>)

  /** Every range was accepted by its own constructor. */
  ghost predicate OrderedInstitution(i: Institution) {
    && (forall r :: r in i.registrations ==> Ordered(r.validity))
    && (forall a :: a in i.aliases ==> Ordered(a.validity))
    && (forall m :: m in i.cohorts ==> Ordered(m.validity))
  }

  type RegistrationKey = (string, string, string)
  type AliasKey = (string, string)

  function Memberships(i: Institution): seq<Dated<string>> {
    seq(|i.cohorts|, k requires 0 <= k < |i.cohorts| => Dated(i.cohorts[k].cohort, i.cohorts[k].validity))
  }

  function Registered(i: Institution): seq<Dated<RegistrationKey>> {
    seq(|i.registrations|, k requires 0 <= k < |i.registrations| =>
      var r := i.registrations[k]; Dated((r.regulator, r.kind, r.code), r.validity))
  }

  function Named(i: Institution, normalize: string -> string): seq<Dated<AliasKey>> {
    seq(|i.aliases|, k requires 0 <= k < |i.aliases| =>
      var a := i.aliases[k]; Dated((a.source, normalize(a.value)), a.validity))
  }

  function AllRegistrations(institutions: seq<Institution>): seq<Dated<RegistrationKey>> {
    if institutions == [] then []
    else AllRegistrations(institutions[..|institutions| - 1]) + Registered(institutions[|institutions| - 1])
  }

  function AllAliases(institutions: seq<Institution>, normalize: string -> string): seq<Dated<AliasKey>> {
    if institutions == [] then []
    else AllAliases(institutions[..|institutions| - 1], normalize) + Named(institutions[|institutions| - 1], normalize)
  }

  function Codes(institutions: seq<Institution>): (codes: seq<string>)
    ensures |codes| == |institutions| && forall k :: 0 <= k < |codes| ==> codes[k] == institutions[k].code
  {
    seq(|institutions|, k requires 0 <= k < |institutions| => institutions[k].code)
  }

  datatype ConfigError =
    | DuplicateCohort(code: string) | DuplicateInstitution(code: string)
    | UnknownCohort(institution: string, cohort: string)
    | OverlappingMembership(institution: string, cohort: string) | OverlappingRegistration | AmbiguousAlias
    | DuplicateConcept(identity: string) | DuplicateMapping(identity: string) | OverlappingMapping

  /** On every date the institution is in each cohort at most once, and only in declared cohorts. */
  ghost predicate MembershipsSound(i: Institution, cohorts: seq<string>) {
    (forall m :: m in i.cohorts ==> m.cohort in cohorts) && SingleValued(Memberships(i))
  }

  /** What a refused membership says: an undeclared cohort, or a date the institution is in it twice. */
  ghost predicate MembershipFault(i: Institution, cohorts: seq<string>, e: ConfigError) {
    match e
    case UnknownCohort(code, cohort) =>
      code == i.code && cohort !in cohorts && exists m :: m in i.cohorts && m.cohort == cohort
    case OverlappingMembership(code, cohort) =>
      code == i.code && exists date: int :: |Lookup(Memberships(i), cohort, date)| > 1
    case _ => false
  }

  /** The membership loop of one institution: each membership, then every later one. */
  method CheckMemberships(i: Institution, cohorts: seq<string>) returns (e: Option<ConfigError>)
    requires OrderedInstitution(i)
    ensures e.None? <==> MembershipsSound(i, cohorts)
    ensures e.Some? ==> MembershipFault(i, cohorts, e.value)
  {
    var records := Memberships(i);
    assert AllOrdered(records) by {
      forall k | 0 <= k < |records| ensures Ordered(records[k].validity) { assert i.cohorts[k] in i.cohorts; }
    }
    PairwiseIffSingleValued(records);
    for index := 0 to |i.cohorts|
      invariant forall k :: 0 <= k < index ==> i.cohorts[k].cohort in cohorts
      invariant forall k, j :: 0 <= k < index && k < j < |records| ==> !Clash(records[k], records[j])
    {
      var membership := i.cohorts[index];
      assert membership in i.cohorts;
      if membership.cohort !in cohorts { return Some(UnknownCohort(i.code, membership.cohort)); }
      for other := index + 1 to |i.cohorts|
        invariant forall j :: index < j < other ==> !Clash(records[index], records[j])
      {
        if membership.cohort == i.cohorts[other].cohort
           && RangesOverlap(membership.validity, i.cohorts[other].validity)
        {
          assert Clash(records[index], records[other]);
          ClashOnSomeDate(records, index, other);
          return Some(OverlappingMembership(i.code, membership.cohort));
        }
      }
    }
    return None;
  }

  lemma {:induction false} FlattenedOrdered(institutions: seq<Institution>, normalize: string -> string)
    requires forall i :: i in institutions ==> OrderedInstitution(i)
    ensures AllOrdered(AllRegistrations(institutions)) && AllOrdered(AllAliases(institutions, normalize))
  {
    if institutions != [] {
      var last := institutions[|institutions| - 1];
      FlattenedOrdered(institutions[..|institutions| - 1], normalize);
      assert OrderedInstitution(last);
      forall k | 0 <= k < |last.registrations| ensures Ordered(Registered(last)[k].validity) {
        assert last.registrations[k] in last.registrations;
      }
      forall k | 0 <= k < |last.aliases| ensures Ordered(Named(last, normalize)[k].validity) {
        assert last.aliases[k] in last.aliases;
      }
    }
  }

  /** What each refusal of the document says about it. */
  ghost predicate DocumentFault(doc: InstitutionsDocument, normalize: string -> string, e: ConfigError) {
    match e
    case DuplicateCohort(code) => Repeats(doc.cohorts, code)
    case DuplicateInstitution(code) => Repeats(Codes(doc.institutions), code)
    case OverlappingRegistration => !SingleValued(AllRegistrations(doc.institutions))
    case AmbiguousAlias => !SingleValued(AllAliases(doc.institutions, normalize))
    case _ => exists i :: i in doc.institutions && MembershipFault(i, doc.cohorts, e)
  }

  /**
    A document passes exactly when codes are unique, cohorts are declared, and on every
    date each institution/cohort pair, each registration identity and each
    source/normalised-alias identity has at most one covering record.
   */
  method ValidateIdentityContracts(doc: InstitutionsDocument, normalize: string -> string)
    returns (e: Option<ConfigError>)
    requires forall i :: i in doc.institutions ==> OrderedInstitution(i)
    ensures e.None? <==>
      && Distinct(doc.cohorts) && Distinct(Codes(doc.institutions))
      && (forall i :: i in doc.institutions ==> MembershipsSound(i, doc.cohorts))
      && SingleValued(AllRegistrations(doc.institutions))
      && SingleValued(AllAliases(doc.institutions, normalize))
    ensures e.Some? ==> DocumentFault(doc, normalize, e.value)
  {
    var repeated := Duplicate(doc.cohorts);
    if repeated.Some? { return Some(DuplicateCohort(repeated.value)); }
    repeated := Duplicate(Codes(doc.institutions));
    if repeated.Some? { return Some(DuplicateInstitution(repeated.value)); }
    var registrations: seq<Dated<RegistrationKey>> := [];
    var aliases: seq<Dated<AliasKey>> := [];
    var institutions := doc.institutions;
    for k := 0 to |institutions|
      invariant forall i :: i in institutions[..k] ==> MembershipsSound(i, doc.cohorts)
      invariant registrations == AllRegistrations(institutions[..k])
      invariant aliases == AllAliases(institutions[..k], normalize)
    {
      assert institutions[..k + 1] == institutions[..k] + [institutions[k]];
      assert institutions[..k + 1][..k] == institutions[..k];
      assert institutions[k] in institutions;
      e := CheckMemberships(institutions[k], doc.cohorts);
      if e.Some? { return e; }
      registrations := registrations + Registered(institutions[k]);
      aliases := aliases + Named(institutions[k], normalize);
    }
    assert institutions[..|institutions|] == institutions;
    FlattenedOrdered(institutions, normalize);
    var clash := FindClash(registrations);
    if clash.Some? { return Some(OverlappingRegistration); }
    clash := FindClash(aliases);
    if clash.Some? { return Some(AmbiguousAlias); }
    return None;
  }

  // ---------------------------------------------------------------- mappings

  datatype Lifecycle = Draft | Active | ReviewRequired | Retired

  datatype RegulatoryConcept = RegulatoryConcept(source: string, code: string, version: nat)

  datatype Mapping = Mapping(
    source: string, concept: string, conceptVersion: nat, canonical: string, scope: string, version: nat,
    lifecycle: Lifecycle, validity: Validity)

  type MappingKey = (string, string, nat, string, string)

  /** The characters an identifier is made of; a colon is not among them. */
  predicate IdentifierText(s: string) {
    forall i :: 0 <= i < |s| ==> 'a' <= s[i] <= 'z' || '0' <= s[i] <= '9' || s[i] == '_'
  }

  /** `":".join(fields)` */
  function Joined(fields: seq<string>): string {
    if fields == [] then "" else if |fields| == 1 then fields[0] else fields[0] + ":" + Joined(fields[1..])
  }

  lemma {:induction false} FirstFieldsAgree(a: string, x: string, b: string, y: string)
    requires IdentifierText(a) && IdentifierText(b) && a + ":" + x == b + ":" + y
    ensures a == b && x == y
  {
    var s := a + ":" + x;
    assert s[|a|] == ':' && s[|b|] == ':';
    assert forall k :: 0 <= k < |a| ==> s[k] == a[k] != ':';
    assert forall k :: 0 <= k < |b| ==> s[k] == b[k] != ':';
    assert s[..|a|] == a && s[..|b|] == b && s[|a| + 1..] == x && s[|b| + 1..] == y;
  }

  lemma {:induction false} DecimalIsText(n: nat)
    ensures IdentifierText(Decimal(n)) && (forall m: nat :: Decimal(m) == Decimal(n) ==> m == n)
  {
    DecimalReadsBack(n);
    forall m: nat { DecimalReadsBack(m); }
  }

  /** Colon-joined fields determine the fields. */
  lemma {:induction false} JoinedInjective(a: seq<string>, b: seq<string>)
    requires |a| == |b| && (forall f :: f in a ==> IdentifierText(f)) && (forall f :: f in b ==> IdentifierText(f))
    ensures Joined(a) == Joined(b) <==> a == b
  {
    if |a| > 1 {
      JoinedInjective(a[1..], b[1..]);
      assert a == [a[0]] + a[1..] && b == [b[0]] + b[1..];
      if Joined(a) == Joined(b) { FirstFieldsAgree(a[0], Joined(a[1..]), b[0], Joined(b[1..])); }
    }
  }

  function ConceptText(c: RegulatoryConcept): string { Joined([c.source, c.code, Decimal(c.version)]) }

  function MappingText(m: Mapping): string {
    Joined([m.source, m.concept, Decimal(m.conceptVersion), m.canonical, m.scope, Decimal(m.version)])
  }

  predicate ValidConcept(c: RegulatoryConcept) { IdentifierText(c.source) && IdentifierText(c.code) }

  predicate ValidMapping(m: Mapping) {
    && IdentifierText(m.source) && IdentifierText(m.concept) && IdentifierText(m.canonical) && IdentifierText(m.scope)
    && Ordered(m.validity)
  }

  /** A mapping's identity with its version. */
  function VersionedKey(m: Mapping): (string, string, nat, string, string, nat) {
    (m.source, m.concept, m.conceptVersion, m.canonical, m.scope, m.version)
  }

  lemma {:induction false} ConceptTextInjective(a: RegulatoryConcept, b: RegulatoryConcept)
    requires ValidConcept(a) && ValidConcept(b)
    ensures ConceptText(a) == ConceptText(b) <==> a == b
  {
    DecimalIsText(a.version); DecimalIsText(b.version);
    JoinedInjective([a.source, a.code, Decimal(a.version)], [b.source, b.code, Decimal(b.version)]);
    if ConceptText(a) == ConceptText(b) {
      var x, y := [a.source, a.code, Decimal(a.version)], [b.source, b.code, Decimal(b.version)];
      assert x[0] == y[0] && x[1] == y[1] && x[2] == y[2];
    }
  }

  lemma {:induction false} MappingTextInjective(a: Mapping, b: Mapping)
    requires ValidMapping(a) && ValidMapping(b)
    ensures MappingText(a) == MappingText(b) <==> VersionedKey(a) == VersionedKey(b)
  {
    var x := [a.source, a.concept, Decimal(a.conceptVersion), a.canonical, a.scope, Decimal(a.version)];
    var y := [b.source, b.concept, Decimal(b.conceptVersion), b.canonical, b.scope, Decimal(b.version)];
    DecimalIsText(a.version); DecimalIsText(b.version);
    DecimalIsText(a.conceptVersion); DecimalIsText(b.conceptVersion);
    JoinedInjective(x, y);
    if MappingText(a) == MappingText(b) {
      assert x[0] == y[0] && x[1] == y[1] && x[2] == y[2] && x[3] == y[3] && x[4] == y[4] && x[5] == y[5];
    }
  }

  function ActiveMappings(mappings: seq<Mapping>): (r: seq<Mapping>)
    ensures forall m :: m in r ==> m in mappings
  {
    if mappings == [] then []
    else (if mappings[0].lifecycle == Active then [mappings[0]] else []) + ActiveMappings(mappings[1..])
  }

  function DatedMappings(mappings: seq<Mapping>): seq<Dated<MappingKey>> {
    seq(|mappings|, k requires 0 <= k < |mappings| =>
      var m := mappings[k]; Dated((m.source, m.concept, m.conceptVersion, m.canonical, m.scope), m.validity))
  }

  ghost predicate DistinctConcepts(concepts: seq<RegulatoryConcept>) {
    forall i, j :: 0 <= i < j < |concepts| ==> concepts[i] != concepts[j]
  }

  ghost predicate DistinctMappings(mappings: seq<Mapping>) {
    forall i, j :: 0 <= i < j < |mappings| ==> VersionedKey(mappings[i]) != VersionedKey(mappings[j])
  }

  /**
    The mapping document passes exactly when concept identities and versioned mapping
    identities are unique, field by field although the code compares their joined texts,
    and on every date each mapping identity has at most one active covering record.
   */
  method ValidateMappingVersions(concepts: seq<RegulatoryConcept>, mappings: seq<Mapping>)
    returns (e: Option<ConfigError>)
    requires forall c :: c in concepts ==> ValidConcept(c)
    requires forall m :: m in mappings ==> ValidMapping(m)
    ensures e.None? <==>
      DistinctConcepts(concepts) && DistinctMappings(mappings) && SingleValued(DatedMappings(ActiveMappings(mappings)))
    ensures e.Some? ==>
      match e.value
      case DuplicateConcept(_) => !DistinctConcepts(concepts)
      case DuplicateMapping(_) => !DistinctMappings(mappings)
      case OverlappingMapping => !SingleValued(DatedMappings(ActiveMappings(mappings)))
      case _ => false
  {
    var conceptTexts := seq(|concepts|, k requires 0 <= k < |concepts| => ConceptText(concepts[k]));
    forall i, j | 0 <= i < j < |concepts| ensures conceptTexts[i] == conceptTexts[j] <==> concepts[i] == concepts[j] {
      assert concepts[i] in concepts && concepts[j] in concepts;
      ConceptTextInjective(concepts[i], concepts[j]);
    }
    var repeated := Duplicate(conceptTexts);
    if repeated.Some? { return Some(DuplicateConcept(repeated.value)); }
    var mappingTexts := seq(|mappings|, k requires 0 <= k < |mappings| => MappingText(mappings[k]));
    forall i, j | 0 <= i < j < |mappings|
      ensures mappingTexts[i] == mappingTexts[j] <==> VersionedKey(mappings[i]) == VersionedKey(mappings[j])
    {
      assert mappings[i] in mappings && mappings[j] in mappings;
      MappingTextInjective(mappings[i], mappings[j]);
    }
    repeated := Duplicate(mappingTexts);
    if repeated.Some? { return Some(DuplicateMapping(repeated.value)); }
    var active := ActiveMappings(mappings);
    assert AllOrdered(DatedMappings(active)) by {
      forall k | 0 <= k < |active| ensures Ordered(active[k].validity) { assert active[k] in active; }
    }
    var clash := FindClash(DatedMappings(active));
    if clash.Some? { return Some(OverlappingMapping); }
    return None;
  }

  // ---------------------------------------------------------------- what the documents then say, field by field

  ghost predicate SameDay(v: Validity, w: Validity) { exists date :: Covers(v, date) && Covers(w, date) }

  function RegistrationLists(institutions: seq<Institution>): (r: seq<seq<Dated<RegistrationKey>>>)
    ensures |r| == |institutions|
  {
    seq(|institutions|, i requires 0 <= i < |institutions| => Registered(institutions[i]))
  }

  function AliasLists(institutions: seq<Institution>, normalize: string -> string): (r: seq<seq<Dated<AliasKey>>>)
    ensures |r| == |institutions|
  {
    seq(|institutions|, i requires 0 <= i < |institutions| => Named(institutions[i], normalize))
  }

  function ActiveLists(mappings: seq<Mapping>): (r: seq<seq<Dated<MappingKey>>>)
    ensures |r| == |mappings|
  {
    seq(|mappings|, i requires 0 <= i < |mappings| =>
      if mappings[i].lifecycle == Active then DatedMappings([mappings[i]]) else [])
  }

  lemma {:induction false} RegistrationsAreFlat(institutions: seq<Institution>, normalize: string -> string)
    ensures AllRegistrations(institutions) == Flat(RegistrationLists(institutions))
    ensures AllAliases(institutions, normalize) == Flat(AliasLists(institutions, normalize))
  {
    if institutions != [] {
      var n := |institutions| - 1;
      RegistrationsAreFlat(institutions[..n], normalize);
      assert RegistrationLists(institutions)[..n] == RegistrationLists(institutions[..n]);
      assert AliasLists(institutions, normalize)[..n] == AliasLists(institutions[..n], normalize);
    }
  }

  lemma {:induction false} FlatFront<T>(lists: seq<seq<T>>)
    requires lists != []
    ensures Flat(lists) == lists[0] + Flat(lists[1..])
  {
    if |lists| > 1 {
      var n := |lists| - 1;
      FlatFront(lists[..n]);
      assert lists[..n][1..] == lists[1..][..n - 1] && lists[1..][n - 1] == lists[n];
      Assoc(lists[0], Flat(lists[1..][..n - 1]), lists[n]);
    } else {
      assert lists[..0] == [] && Flat(lists[..0]) + lists[0] == lists[0] + Flat(lists[1..]);
    }
  }

  lemma {:induction false} ActiveAreFlat(mappings: seq<Mapping>)
    ensures DatedMappings(ActiveMappings(mappings)) == Flat(ActiveLists(mappings))
  {
    if mappings != [] {
      ActiveAreFlat(mappings[1..]);
      assert ActiveLists(mappings)[1..] == ActiveLists(mappings[1..]);
      FlatFront(ActiveLists(mappings));
      var first := if mappings[0].lifecycle == Active then [mappings[0]] else [];
      assert DatedMappings(first + ActiveMappings(mappings[1..]))
          == DatedMappings(first) + DatedMappings(ActiveMappings(mappings[1..]));
    }
  }

  /** The k-th registration of the i-th institution. */
  predicate HasRegistration(institutions: seq<Institution>, i: int, k: int) {
    0 <= i < |institutions| && 0 <= k < |institutions[i].registrations|
  }

  predicate SameRegistration(a: Registration, b: Registration) {
    a.regulator == b.regulator && a.kind == b.kind && a.code == b.code
  }

  /** Any two registrations of the document with one regulator, type and code share no day. */
  lemma {:induction false} RegistrationsMean(institutions: seq<Institution>)
    requires forall i :: i in institutions ==> OrderedInstitution(i)
    ensures SingleValued(AllRegistrations(institutions)) <==>
      forall i, k, j, l ::
        HasRegistration(institutions, i, k) && HasRegistration(institutions, j, l) && (i != j || k != l)
        && SameRegistration(institutions[i].registrations[k], institutions[j].registrations[l])
        ==> !SameDay(institutions[i].registrations[k].validity, institutions[j].registrations[l].validity)
  {
    var lists: seq<seq<Dated<RegistrationKey>>> := RegistrationLists(institutions);
    RegistrationsAreFlat(institutions, s => s);
    forall i, k ensures HasRegistration(institutions, i, k) <==> IsPlace(lists, i, k) {}
    forall i: int, k: int | IsPlace(lists, i, k)
      ensures Ordered(lists[i][k].validity)
      ensures lists[i][k] == var r := institutions[i].registrations[k]; Dated((r.regulator, r.kind, r.code), r.validity)
    {
      assert institutions[i] in institutions && institutions[i].registrations[k] in institutions[i].registrations;
    }
    FlatSingleValued(lists);
    forall i: int, k: int, j: int, l: int | IsPlace(lists, i, k) && IsPlace(lists, j, l)
      ensures Collide(lists[i][k], lists[j][l]) <==>
        && SameRegistration(institutions[i].registrations[k], institutions[j].registrations[l])
        && SameDay(institutions[i].registrations[k].validity, institutions[j].registrations[l].validity)
    {
    }
  }

  /** The k-th alias of the i-th institution. */
  predicate HasAlias(institutions: seq<Institution>, i: int, k: int) {
    0 <= i < |institutions| && 0 <= k < |institutions[i].aliases|
  }

  /** Any two aliases of the document with one source and one normalised value share no day. */
  lemma {:induction false} AliasesMean(institutions: seq<Institution>, normalize: string -> string)
    requires forall i :: i in institutions ==> OrderedInstitution(i)
    ensures SingleValued(AllAliases(institutions, normalize)) <==>
      forall i, k, j, l ::
        HasAlias(institutions, i, k) && HasAlias(institutions, j, l) && (i != j || k != l)
        && institutions[i].aliases[k].source == institutions[j].aliases[l].source
        && normalize(institutions[i].aliases[k].value) == normalize(institutions[j].aliases[l].value)
        ==> !SameDay(institutions[i].aliases[k].validity, institutions[j].aliases[l].validity)
  {
    var lists: seq<seq<Dated<AliasKey>>> := AliasLists(institutions, normalize);
    RegistrationsAreFlat(institutions, normalize);
    forall i, k ensures HasAlias(institutions, i, k) <==> IsPlace(lists, i, k) {}
    forall i: int, k: int | IsPlace(lists, i, k)
      ensures Ordered(lists[i][k].validity)
      ensures lists[i][k] == var a := institutions[i].aliases[k]; Dated((a.source, normalize(a.value)), a.validity)
    {
      assert institutions[i] in institutions && institutions[i].aliases[k] in institutions[i].aliases;
    }
    FlatSingleValued(lists);
    forall i: int, k: int, j: int, l: int | IsPlace(lists, i, k) && IsPlace(lists, j, l)
      ensures Collide(lists[i][k], lists[j][l]) <==>
        && institutions[i].aliases[k].source == institutions[j].aliases[l].source
        && normalize(institutions[i].aliases[k].value) == normalize(institutions[j].aliases[l].value)
        && SameDay(institutions[i].aliases[k].validity, institutions[j].aliases[l].validity)
    {
    }
  }

  /** Any two memberships of the institution in one cohort share no day. */
  lemma {:induction false} MembershipsMean(i: Institution)
    requires OrderedInstitution(i)
    ensures SingleValued(Memberships(i)) <==>
      forall k, l :: 0 <= k < |i.cohorts| && 0 <= l < |i.cohorts| && k != l
        && i.cohorts[k].cohort == i.cohorts[l].cohort
        ==> !SameDay(i.cohorts[k].validity, i.cohorts[l].validity)
  {
    var lists: seq<seq<Dated<string>>> := [Memberships(i)];
    FlatFront(lists);
    assert Flat(lists) == Memberships(i) + [] == Memberships(i);
    forall x: int, k: int | IsPlace(lists, x, k)
      ensures Ordered(lists[x][k].validity)
    {
      assert i.cohorts[k] in i.cohorts;
    }
    FlatSingleValued(lists);
    forall k, l | 0 <= k < |i.cohorts| && 0 <= l < |i.cohorts|
      ensures IsPlace(lists, 0, k) && IsPlace(lists, 0, l)
      ensures Collide(lists[0][k], lists[0][l]) <==>
        i.cohorts[k].cohort == i.cohorts[l].cohort && SameDay(i.cohorts[k].validity, i.cohorts[l].validity)
    {
    }
  }

  predicate SameMapping(a: Mapping, b: Mapping) {
    && a.source == b.source && a.concept == b.concept && a.conceptVersion == b.conceptVersion
    && a.canonical == b.canonical && a.scope == b.scope
  }

  lemma {:induction false} ActivePlaces(mappings: seq<Mapping>)
    requires forall m :: m in mappings ==> Ordered(m.validity)
    ensures
      var lists := ActiveLists(mappings);
      && (forall i, k :: IsPlace(lists, i, k) <==> 0 <= i < |mappings| && k == 0 && mappings[i].lifecycle == Active)
      && (forall i, k :: IsPlace(lists, i, k) ==>
            && Ordered(lists[i][k].validity) && lists[i][k].validity == mappings[i].validity
            && forall j, l :: IsPlace(lists, j, l) ==>
                 (lists[i][k].key == lists[j][l].key <==> SameMapping(mappings[i], mappings[j])))
  {
    forall i | 0 <= i < |mappings| ensures Ordered(mappings[i].validity) { assert mappings[i] in mappings; }
  }

  /** Any two active mappings with one source, concept, concept version, canonical concept and scope share no day. */
  lemma {:induction false} MappingsMean(mappings: seq<Mapping>)
    requires forall m :: m in mappings ==> Ordered(m.validity)
    ensures SingleValued(DatedMappings(ActiveMappings(mappings))) <==>
      forall i, j :: 0 <= i < |mappings| && 0 <= j < |mappings| && i != j
        && mappings[i].lifecycle == Active && mappings[j].lifecycle == Active && SameMapping(mappings[i], mappings[j])
        ==> !SameDay(mappings[i].validity, mappings[j].validity)
  {
    var lists: seq<seq<Dated<MappingKey>>> := ActiveLists(mappings);
    ActiveAreFlat(mappings);
    ActivePlaces(mappings);
    FlatSingleValued(lists);
    if SingleValued(Flat(lists)) {
      forall i, j | 0 <= i < |mappings| && 0 <= j < |mappings| && i != j
        && mappings[i].lifecycle == Active && mappings[j].lifecycle == Active && SameMapping(mappings[i], mappings[j])
        ensures !SameDay(mappings[i].validity, mappings[j].validity)
      {
        assert IsPlace(lists, i, 0) && IsPlace(lists, j, 0) && !Collide(lists[i][0], lists[j][0]);
      }
    }
  }
}
