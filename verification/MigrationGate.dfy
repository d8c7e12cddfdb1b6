/**
  The production migration gate: repository loading, the history check that must leave
  exactly the pending suffix, the pending-list file, and the dry-run check against it.
 */
module MigrationGate {
  import opened Prelude
  import opened PyText
  import Strings

  datatype Migration = Migration(version: string, name: string)

  /** A directory entry; entries are listed in file-name order. */
  datatype Entry = Entry(name: string, isFile: bool)

  datatype HistoryRow = HistoryRow(local: Option<string>, remote: Option<string>)

  datatype GateError =
    | UnexpectedDirectory(name: string) | InvalidFilename(name: string) | DuplicateVersions(versions: set<string>)
    | AmbiguousOrdering(version: string, other: string) | NotChronological
    | LegacyMissing | LegacyChanged | NoMigrations
    | LocalMismatch | RemoteDuplicates | NoBaseline | Diverges(version: string) | Gap | MissingLocally(version: string)
    | NotAligned | UnknownFiles
    | NotADryRun | UnexpectedSeeds | UnexpectedRoles | PlanMismatch | UpToDateMismatch

  /** Library behaviour: `\d`, the calendar test of `strptime`, and `int(version)`. */
  datatype Library = Library(isDigit: char -> bool, calendar: string -> bool, value: string -> int)

  /** The characters `str.splitlines` breaks at; all of them are whitespace. */
  predicate IsLineBreak(c: char) {
    var u := c as int;
    0x0A <= u <= 0x0D || 0x1C <= u <= 0x1E || u == 0x85 || u == 0x2028 || u == 0x2029
  }

  ghost predicate ValidLibrary(lib: Library) { forall c :: lib.isDigit(c) ==> !IsSpace(c) }

  // ---------------------------------------------------------------- repository

  const LEGACY_MIGRATION_NAME := "202608250001_initial_schema.sql"

  /** `\d{14}_<snake name>.sql` */
  predicate IsStandardName(lib: Library, name: string) {
    && |name| >= 20 && (forall i :: 0 <= i < 14 ==> lib.isDigit(name[i])) && name[14] == '_'
    && name[|name| - 4..] == ".sql" && Strings.IsIdentifier(Strings.Ascii(name[15..|name| - 4]))
  }

  function MigrationVersion(lib: Library, name: string): Option<string> {
    if name == LEGACY_MIGRATION_NAME then Some(name[..12])
    else if !IsStandardName(lib, name) || !lib.calendar(name[..14]) then None
    else Some(name[..14])
  }

  /** A standard name in parts: a version of fourteen digits, an identifier, and the suffix. */
  ghost predicate StandardName(lib: Library, name: string, version: string, rest: string) {
    && |version| == 14 && (forall i :: 0 <= i < 14 ==> lib.isDigit(version[i]))
    && Strings.IsIdentifier(Strings.Ascii(rest)) && name == version + ("_" + (rest + ".sql"))
  }

  /** Which version a name yields: the legacy file its own, a standard name its leading digits when they are a date. */
  lemma {:induction false} VersionIff(lib: Library, name: string, version: string)
    ensures MigrationVersion(lib, name) == Some(version) <==>
      if name == "202608250001_initial_schema.sql" then version == "202608250001"
      else lib.calendar(version) && exists rest :: StandardName(lib, name, version, rest)
  {
    assert "202608250001_initial_schema.sql"[..12] == "202608250001";
    forall rest | StandardName(lib, name, version, rest) ensures IsStandardName(lib, name) && name[..14] == version {
      var n := |name|;
      assert n == 14 + 1 + |rest| + 4;
      assert name[..14] == version && name[14] == '_' && name[n - 4..] == ".sql" && name[15..n - 4] == rest;
      assert forall i :: 0 <= i < 14 ==> name[i] == version[i];
    }
    if IsStandardName(lib, name) {
      var rest := name[15..|name| - 4];
      assert name == name[..14] + ("_" + (rest + name[|name| - 4..]));
      assert StandardName(lib, name, name[..14], rest);
    }
  }

  predicate SharePrefix(a: string, b: string) { a <= b || b <= a }

  function Versions(migrations: seq<Migration>): (r: seq<string>)
    ensures |r| == |migrations| && forall i :: 0 <= i < |r| ==> r[i] == migrations[i].version
  {
    seq(|migrations|, i requires 0 <= i < |migrations| => migrations[i].version)
  }

  function Names(migrations: seq<Migration>): (r: seq<string>)
    ensures |r| == |migrations| && forall i :: 0 <= i < |r| ==> r[i] == migrations[i].name
  {
    seq(|migrations|, i requires 0 <= i < |migrations| => migrations[i].name)
  }

  predicate DistinctNames(entries: seq<Entry>) {
    forall i, j :: 0 <= i < j < |entries| ==> entries[i].name != entries[j].name
  }

  /** The migrations of a directory holding nothing but well-named files. */
  ghost predicate Lists(lib: Library, entries: seq<Entry>, migrations: seq<Migration>) {
    && |migrations| == |entries|
    && forall i :: 0 <= i < |entries| ==>
         entries[i].isFile && MigrationVersion(lib, entries[i].name) == Some(migrations[i].version)
           && migrations[i].name == entries[i].name
  }

  /** The well-named files, in order, whatever else the directory holds. */
  function Listed(lib: Library, entries: seq<Entry>): seq<Migration> {
    if entries == [] then []
    else
      var last := entries[|entries| - 1];
      Listed(lib, entries[..|entries| - 1])
      + if last.isFile && MigrationVersion(lib, last.name).Some?
        then [Migration(MigrationVersion(lib, last.name).value, last.name)] else []
  }

  ghost predicate PrefixFree(versions: seq<string>) {
    forall i, j :: 0 <= i < j < |versions| ==> !SharePrefix(versions[i], versions[j])
  }

  ghost predicate Chronological(lib: Library, versions: seq<string>) {
    forall i, j :: 0 <= i < j < |versions| ==> lib.value(versions[i]) <= lib.value(versions[j])
  }

  /** What a repository must be for the gate to proceed. */
  ghost predicate Acceptable(lib: Library, entries: seq<Entry>, legacyIntact: bool, migrations: seq<Migration>) {
    && Lists(lib, entries, migrations) && migrations != []
    && PrefixFree(Versions(migrations)) && Chronological(lib, Versions(migrations))
    && LEGACY_MIGRATION_NAME in Names(migrations) && legacyIntact
  }

  /** `sorted(versions, key=int)` */
  function SortedByValue(lib: Library, versions: seq<string>): seq<string> {
    Strings.Sort(versions, (a, b) => lib.value(a) <= lib.value(b))
  }

  /** Sorting by value leaves chronological versions, and only those, alone. */
  lemma {:induction false} ChronologicalIffSortedFixed(lib: Library, versions: seq<string>)
    ensures SortedByValue(lib, versions) == versions <==> Chronological(lib, versions)
  {
    var le := (a: string, b: string) => lib.value(a) <= lib.value(b);
    Strings.SortSorts(versions, le);
    if Chronological(lib, versions) { Strings.SortFixed(versions, le); }
    if Strings.Sort(versions, le) == versions {
      forall i, j | 0 <= i < j < |versions| ensures lib.value(versions[i]) <= lib.value(versions[j]) {
        assert le(versions[i], versions[j]);
      }
    }
  }

  /** What the listing reports: a directory, or a file whose name is no migration's. */
  predicate ListingError(lib: Library, entries: seq<Entry>, e: GateError) {
    match e
    case UnexpectedDirectory(name) => Entry(name, false) in entries
    case InvalidFilename(name) => Entry(name, true) in entries && MigrationVersion(lib, name).None?
    case _ => false
  }

  lemma {:induction false} ListedLast(lib: Library, entries: seq<Entry>, k: nat)
    requires k < |entries|
    ensures
      var e := entries[k];
      Listed(lib, entries[..k + 1]) == Listed(lib, entries[..k])
        + if e.isFile && MigrationVersion(lib, e.name).Some?
          then [Migration(MigrationVersion(lib, e.name).value, e.name)] else []
    ensures entries[..k + 1] == entries[..k] + [entries[k]]
  {
    assert entries[..k + 1][..k] == entries[..k];
  }

  /** The first loop: every entry becomes a migration or an error. */
  method ListEntries(lib: Library, entries: seq<Entry>) returns (migrations: seq<Migration>, errors: seq<GateError>)
    ensures migrations == Listed(lib, entries)
    ensures forall e :: e in errors <==> ListingError(lib, entries, e)
  {
    migrations, errors := [], [];
    for k := 0 to |entries|
      invariant migrations == Listed(lib, entries[..k])
      invariant forall e :: e in errors <==> ListingError(lib, entries[..k], e)
    {
      var entry := entries[k];
      ListedLast(lib, entries, k);
      if !entry.isFile {
        errors := errors + [UnexpectedDirectory(entry.name)];
        continue;
      }
      var version := MigrationVersion(lib, entry.name);
      if version.None? {
        errors := errors + [InvalidFilename(entry.name)];
        continue;
      }
      migrations := migrations + [Migration(version.value, entry.name)];
    }
    assert entries[..|entries|] == entries;
  }

  /** `versions[i]` and a later `versions[j]` share a prefix. */
  predicate AmbiguousAt(versions: seq<string>, i: int, j: int) {
    0 <= i < j < |versions| && SharePrefix(versions[i], versions[j])
  }

  ghost predicate PrefixError(versions: seq<string>, e: GateError) {
    exists i, j :: AmbiguousAt(versions, i, j) && e == AmbiguousOrdering(versions[i], versions[j])
  }

  /** The pairwise loops over versions that share a prefix: exactly the pairs at fault are named. */
  method PrefixErrors(versions: seq<string>) returns (errors: seq<GateError>)
    ensures forall e :: e in errors <==> PrefixError(versions, e)
  {
    errors := [];
    for i := 0 to |versions|
      invariant forall e :: e in errors <==>
        exists x, y :: x < i && AmbiguousAt(versions, x, y) && e == AmbiguousOrdering(versions[x], versions[y])
    {
      ghost var before := errors;
      for j := i + 1 to |versions|
        invariant forall e :: e in errors <==>
          || e in before
          || exists y :: y < j && AmbiguousAt(versions, i, y) && e == AmbiguousOrdering(versions[i], versions[y])
      {
        if SharePrefix(versions[i], versions[j]) {
          assert AmbiguousAt(versions, i, j);
          errors := errors + [AmbiguousOrdering(versions[i], versions[j])];
        }
      }
    }
  }

  /** The versions listed more than once. */
  function Repeated(versions: seq<string>): set<string> { set v | v in versions && multiset(versions)[v] > 1 }

  lemma {:induction false} RepeatedIff(versions: seq<string>)
    ensures Repeated(versions) == {} <==> DistinctStrings(versions)
  {
    forall i, j | 0 <= i < j < |versions| && versions[i] == versions[j] ensures versions[i] in Repeated(versions) {
      assert versions == versions[..j] + versions[j..];
      assert versions[..j][i] == versions[i] && versions[j..][0] == versions[i];
    }
    if DistinctStrings(versions) { Strings.Distinct(versions); }
  }

  /** Every error the gate may raise on this directory, and when. */
  ghost predicate Fault(lib: Library, entries: seq<Entry>, legacyIntact: bool, e: GateError) {
    var versions, legacy := Versions(Listed(lib, entries)), Entry(LEGACY_MIGRATION_NAME, true);
    match e
    case UnexpectedDirectory(_) => ListingError(lib, entries, e)
    case InvalidFilename(_) => ListingError(lib, entries, e)
    case DuplicateVersions(repeated) => repeated == Repeated(versions) && repeated != {}
    case AmbiguousOrdering(_, _) => PrefixError(versions, e)
    case NotChronological => !Chronological(lib, versions)
    case LegacyMissing => legacy !in entries
    case LegacyChanged => legacy in entries && !legacyIntact
    case _ => false
  }

  lemma {:induction false} ListedNamesIff(lib: Library, entries: seq<Entry>, name: string)
    ensures name in Names(Listed(lib, entries)) <==>
      Entry(name, true) in entries && MigrationVersion(lib, name).Some?
  {
    if entries != [] {
      var n := |entries| - 1;
      ListedNamesIff(lib, entries[..n], name);
      assert entries[..|entries|] == entries;
      ListedLast(lib, entries, n);
      var front, all := Listed(lib, entries[..n]), Listed(lib, entries);
      assert |all| > |front| ==> Names(all) == Names(front) + [entries[n].name];
      assert |all| == |front| ==> Names(all) == Names(front);
    }
  }

  /** Without a listing error every entry is listed. */
  lemma {:induction false} ListsAll(lib: Library, entries: seq<Entry>)
    requires forall e :: !ListingError(lib, entries, e)
    ensures Lists(lib, entries, Listed(lib, entries))
  {
    if entries != [] {
      var n := |entries| - 1;
      var front, last := entries[..n], entries[n];
      assert entries[..|entries|] == entries;
      ListedLast(lib, entries, n);
      assert !ListingError(lib, entries, UnexpectedDirectory(last.name));
      assert !ListingError(lib, entries, InvalidFilename(last.name));
      assert last in entries;
      forall e ensures !ListingError(lib, front, e) { assert !ListingError(lib, entries, e); }
      ListsAll(lib, front);
    }
  }

  lemma {:induction false} ListsIsListed(lib: Library, entries: seq<Entry>, migrations: seq<Migration>)
    requires Lists(lib, entries, migrations)
    ensures migrations == Listed(lib, entries) && forall e :: !ListingError(lib, entries, e)
  {
    if entries != [] {
      var n := |entries| - 1;
      assert entries[..|entries|] == entries;
      ListedLast(lib, entries, n);
      ListsIsListed(lib, entries[..n], migrations[..n]);
      assert migrations == migrations[..n] + [migrations[n]];
    }
  }

  /** A repository is acceptable exactly when nothing is at fault. */
  lemma {:induction false} AcceptableIffNoFault(lib: Library, entries: seq<Entry>, legacyIntact: bool)
    ensures (forall e :: !Fault(lib, entries, legacyIntact, e)) <==>
      Acceptable(lib, entries, legacyIntact, Listed(lib, entries))
    ensures forall m :: Acceptable(lib, entries, legacyIntact, m) ==> m == Listed(lib, entries)
  {
    forall m | Lists(lib, entries, m) ensures m == Listed(lib, entries) && forall e :: !ListingError(lib, entries, e) {
      ListsIsListed(lib, entries, m);
    }
    var migrations := Listed(lib, entries);
    var versions := Versions(migrations);
    ListedNamesIff(lib, entries, LEGACY_MIGRATION_NAME);
    RepeatedIff(versions);
    if forall e :: !Fault(lib, entries, legacyIntact, e) {
      NoFaultIsAcceptable(lib, entries, legacyIntact);
    }
    if Acceptable(lib, entries, legacyIntact, migrations) {
      forall e ensures !Fault(lib, entries, legacyIntact, e) {
        if e.DuplicateVersions? { PrefixFreeIsDistinct(versions); }
      }
    }
  }

  lemma {:induction false} PrefixFreeIsDistinct(versions: seq<string>)
    requires PrefixFree(versions)
    ensures DistinctStrings(versions)
  {
    forall i, j | 0 <= i < j < |versions| ensures versions[i] != versions[j] {
      assert !SharePrefix(versions[i], versions[j]);
    }
  }

  lemma {:induction false} NoPrefixErrorIsPrefixFree(versions: seq<string>)
    requires forall e :: !PrefixError(versions, e)
    ensures PrefixFree(versions)
  {
    forall i, j | 0 <= i < j < |versions| ensures !SharePrefix(versions[i], versions[j]) {
      assert !PrefixError(versions, AmbiguousOrdering(versions[i], versions[j]));
      assert AmbiguousAt(versions, i, j) <==> SharePrefix(versions[i], versions[j]);
    }
  }

  lemma {:induction false} NoFaultFacts(lib: Library, entries: seq<Entry>, legacyIntact: bool)
    requires forall e :: !Fault(lib, entries, legacyIntact, e)
    ensures forall e :: !ListingError(lib, entries, e)
    ensures forall e :: !PrefixError(Versions(Listed(lib, entries)), e)
    ensures Chronological(lib, Versions(Listed(lib, entries)))
    ensures Entry(LEGACY_MIGRATION_NAME, true) in entries && legacyIntact
  {
    forall e ensures !ListingError(lib, entries, e) { assert !Fault(lib, entries, legacyIntact, e); }
    forall e ensures !PrefixError(Versions(Listed(lib, entries)), e) { assert !Fault(lib, entries, legacyIntact, e); }
    assert !Fault(lib, entries, legacyIntact, NotChronological);
    assert !Fault(lib, entries, legacyIntact, LegacyMissing) && !Fault(lib, entries, legacyIntact, LegacyChanged);
  }

  lemma {:induction false} NoFaultIsAcceptable(lib: Library, entries: seq<Entry>, legacyIntact: bool)
    requires forall e :: !Fault(lib, entries, legacyIntact, e)
    ensures Acceptable(lib, entries, legacyIntact, Listed(lib, entries))
  {
    NoFaultFacts(lib, entries, legacyIntact);
    ListsAll(lib, entries);
    NoPrefixErrorIsPrefixFree(Versions(Listed(lib, entries)));
    ListedNamesIff(lib, entries, LEGACY_MIGRATION_NAME);
  }

  function DuplicateErrors(versions: seq<string>): seq<GateError> {
    if Repeated(versions) != {} then [DuplicateVersions(Repeated(versions))] else []
  }

  function OrderErrors(lib: Library, versions: seq<string>): seq<GateError> {
    if SortedByValue(lib, versions) != versions then [NotChronological] else []
  }

  function LegacyErrors(names: seq<string>, legacyIntact: bool): seq<GateError> {
    if LEGACY_MIGRATION_NAME !in names then [LegacyMissing] else if !legacyIntact then [LegacyChanged] else []
  }

  /** All the errors, in the order in which they are collected. */
  function Collected(lib: Library, migrations: seq<Migration>, legacyIntact: bool,
                     listing: seq<GateError>, shared: seq<GateError>): seq<GateError> {
    var versions := Versions(migrations);
    listing + DuplicateErrors(versions) + shared + OrderErrors(lib, versions)
    + LegacyErrors(Names(migrations), legacyIntact)
  }

  lemma {:induction false} InCollected(lib: Library, migrations: seq<Migration>, legacyIntact: bool,
                                       listing: seq<GateError>, shared: seq<GateError>, e: GateError)
    ensures e in Collected(lib, migrations, legacyIntact, listing, shared) <==>
      || e in listing || e in DuplicateErrors(Versions(migrations)) || e in shared
      || e in OrderErrors(lib, Versions(migrations)) || e in LegacyErrors(Names(migrations), legacyIntact)
  {
  }

  lemma {:induction false} CollectedFault(lib: Library, entries: seq<Entry>, legacyIntact: bool,
                                          listing: seq<GateError>, shared: seq<GateError>, e: GateError)
    requires e in listing <==> ListingError(lib, entries, e)
    requires e in shared <==> PrefixError(Versions(Listed(lib, entries)), e)
    ensures e in Collected(lib, Listed(lib, entries), legacyIntact, listing, shared) <==>
      Fault(lib, entries, legacyIntact, e)
  {
    InCollected(lib, Listed(lib, entries), legacyIntact, listing, shared, e);
    ChronologicalIffSortedFixed(lib, Versions(Listed(lib, entries)));
    ListedNamesIff(lib, entries, LEGACY_MIGRATION_NAME);
    assert MigrationVersion(lib, LEGACY_MIGRATION_NAME).Some?;
  }

  /** The errors collected are exactly the faults. */
  lemma {:induction false} CollectedFaults(lib: Library, entries: seq<Entry>, legacyIntact: bool,
                                           listing: seq<GateError>, shared: seq<GateError>)
    requires forall e :: e in listing <==> ListingError(lib, entries, e)
    requires forall e :: e in shared <==> PrefixError(Versions(Listed(lib, entries)), e)
    ensures forall e :: e in Collected(lib, Listed(lib, entries), legacyIntact, listing, shared) <==>
      Fault(lib, entries, legacyIntact, e)
  {
    forall e ensures e in Collected(lib, Listed(lib, entries), legacyIntact, listing, shared) <==>
      Fault(lib, entries, legacyIntact, e)
    {
      CollectedFault(lib, entries, legacyIntact, listing, shared, e);
    }
  }

  /**
    Loads the repository.  `legacyIntact` tells whether the legacy file's canonical bytes
    still have their recorded SHA-256.  The errors are exactly the faults of the directory;
    an empty one is a missing legacy file.
   */
  method LoadMigrations(lib: Library, entries: seq<Entry>, legacyIntact: bool)
    returns (r: Result<seq<Migration>, seq<GateError>>)
    ensures r.Success? <==> exists migrations :: Acceptable(lib, entries, legacyIntact, migrations)
    ensures r.Success? ==> Acceptable(lib, entries, legacyIntact, r.value)
    ensures r.Failure? ==> r.error != [] && forall e :: e in r.error <==> Fault(lib, entries, legacyIntact, e)
  {
    var migrations, listing := ListEntries(lib, entries);
    var versions := Versions(migrations);
    var errors := listing + DuplicateErrors(versions);
    var shared := PrefixErrors(versions);
    errors := errors + shared + OrderErrors(lib, versions) + LegacyErrors(Names(migrations), legacyIntact);
    CollectedFaults(lib, entries, legacyIntact, listing, shared);
    AcceptableIffNoFault(lib, entries, legacyIntact);
    if errors != [] {
      assert Fault(lib, entries, legacyIntact, errors[0]);
      return Failure(errors);
    }
    if migrations == [] { return Failure([NoMigrations]); }
    return Success(migrations);
  }

  /** An accepted repository has distinct versions and distinct names, none containing whitespace. */
  lemma {:induction false} AcceptedNames(lib: Library, entries: seq<Entry>, legacyIntact: bool,
                                         migrations: seq<Migration>)
    requires ValidLibrary(lib) && DistinctNames(entries) && Acceptable(lib, entries, legacyIntact, migrations)
    ensures DistinctVersions(migrations) && WellNamed(migrations)
  {
    forall i, j | 0 <= i < j < |migrations|
      ensures migrations[i].version != migrations[j].version && migrations[i].name != migrations[j].name
    {
      assert entries[i].name != entries[j].name && !SharePrefix(Versions(migrations)[i], Versions(migrations)[j]);
    }
    forall i | 0 <= i < |migrations| ensures IsPlainName(migrations[i].name) {
      assert MigrationVersion(lib, entries[i].name).Some?;
      NameIsPlain(lib, migrations[i].name);
    }
  }

  predicate DistinctVersions(migrations: seq<Migration>) {
    forall i, j :: 0 <= i < j < |migrations| ==> migrations[i].version != migrations[j].version
  }

  predicate IsPlainName(name: string) { name != "" && forall i :: 0 <= i < |name| ==> !IsSpace(name[i]) }

  predicate WellNamed(migrations: seq<Migration>) {
    && (forall i :: 0 <= i < |migrations| ==> IsPlainName(migrations[i].name))
    && forall i, j :: 0 <= i < j < |migrations| ==> migrations[i].name != migrations[j].name
  }

  lemma {:induction false} NameIsPlain(lib: Library, name: string)
    requires ValidLibrary(lib) && MigrationVersion(lib, name).Some?
    ensures IsPlainName(name)
  {
    if name != LEGACY_MIGRATION_NAME {
      var middle, suffix := name[15..|name| - 4], name[|name| - 4..];
      forall i | 0 <= i < |name| ensures !IsSpace(name[i]) {
        if i > 14 && i < |name| - 4 {
          assert Strings.SnakeAt(Strings.Ascii(middle), i - 15, false) && middle[i - 15] == name[i];
        } else if i >= |name| - 4 {
          assert name[i] == suffix[i - (|name| - 4)];
        }
      }
    }
  }

  // ---------------------------------------------------------------- history

  /** The listing of a repository whose first n versions are applied remotely. */
  function ListedRows(migrations: seq<Migration>, n: nat): (r: seq<HistoryRow>)
    ensures |r| == |migrations|
  {
    seq(|migrations|, i requires 0 <= i < |migrations| =>
      HistoryRow(Some(migrations[i].version), if i < n then Some(migrations[i].version) else None))
  }

  /** The remote history is a non-empty prefix of the repository, listed in order, and `pending` is the rest. */
  ghost predicate HistoryLeaves(rows: seq<HistoryRow>, migrations: seq<Migration>, requireAligned: bool,
                                pending: seq<Migration>) {
    exists n: nat :: LeavesSuffix(rows, migrations, requireAligned, pending, n)
  }

  ghost predicate LeavesSuffix(rows: seq<HistoryRow>, migrations: seq<Migration>, requireAligned: bool,
                               pending: seq<Migration>, n: nat) {
    && 0 < n <= |migrations| && rows == ListedRows(migrations, n) && pending == migrations[n..]
    && (requireAligned ==> pending == [])
  }

  function Locals(rows: seq<HistoryRow>): seq<string> {
    if rows == [] then []
    else Locals(rows[..|rows| - 1]) + if rows[|rows| - 1].local.Some? then [rows[|rows| - 1].local.value] else []
  }

  function Remotes(rows: seq<HistoryRow>): seq<string> {
    if rows == [] then []
    else Remotes(rows[..|rows| - 1]) + if rows[|rows| - 1].remote.Some? then [rows[|rows| - 1].remote.value] else []
  }

  predicate DistinctStrings(s: seq<string>) { forall i, j :: 0 <= i < j < |s| ==> s[i] != s[j] }

  /** `{migration.version: migration for migration in migrations}` */
  function ByVersion(migrations: seq<Migration>): (m: map<string, Migration>) {
    if migrations == [] then map[]
    else
      ByVersion(migrations[..|migrations| - 1])[migrations[|migrations| - 1].version := migrations[|migrations| - 1]]
  }

  lemma {:induction false} ByVersionFinds(migrations: seq<Migration>, i: nat)
    requires i < |migrations| && DistinctVersions(migrations)
    ensures migrations[i].version in ByVersion(migrations)
    ensures ByVersion(migrations)[migrations[i].version] == migrations[i]
    decreases |migrations|
  {
    if i < |migrations| - 1 { ByVersionFinds(migrations[..|migrations| - 1], i); }
  }

  lemma {:induction false} ListedColumns(migrations: seq<Migration>, n: nat, k: nat)
    requires k <= |migrations|
    ensures Locals(ListedRows(migrations, n)[..k]) == Versions(migrations)[..k]
    ensures Remotes(ListedRows(migrations, n)[..k]) == Versions(migrations)[..if k <= n then k else n]
  {
    if k > 0 {
      var rows := ListedRows(migrations, n);
      assert rows[..k][..k - 1] == rows[..k - 1];
      ListedColumns(migrations, n, k - 1);
    }
  }

  lemma {:induction false} LocalsPrefix(rows: seq<HistoryRow>, i: nat)
    requires i <= |rows|
    ensures Locals(rows[..i]) <= Locals(rows)
    decreases |rows|
  {
    if i < |rows| {
      LocalsPrefix(rows[..|rows| - 1], i);
      assert rows[..|rows| - 1][..i] == rows[..i];
    } else {
      assert rows[..i] == rows;
    }
  }

  /** What a good listing looks like, column by column and row by row. */
  lemma {:induction false} ListedShape(rows: seq<HistoryRow>, migrations: seq<Migration>, n: nat)
    requires DistinctVersions(migrations) && 0 < n <= |migrations| && rows == ListedRows(migrations, n)
    ensures Locals(rows) == Versions(migrations)
    ensures Remotes(rows) == Versions(migrations)[..n] && Remotes(rows) != [] && DistinctStrings(Remotes(rows))
  {
    ListedColumns(migrations, n, |migrations|);
    assert rows[..|migrations|] == rows && Versions(migrations)[..|migrations|] == Versions(migrations);
  }

  lemma {:induction false} ListedRowsDetermineN(migrations: seq<Migration>, n: nat, m: nat)
    requires n <= |migrations| && m <= |migrations| && ListedRows(migrations, n) == ListedRows(migrations, m)
    ensures n == m
  {
    var a, b := ListedRows(migrations, n), ListedRows(migrations, m);
    assert n < |migrations| ==> a[n] == b[n];
    assert m < |migrations| ==> a[m] == b[m];
  }

  /** No way to read the rows as a non-empty applied prefix that alignment would allow. */
  ghost predicate Refused(rows: seq<HistoryRow>, migrations: seq<Migration>, requireAligned: bool) {
    forall n: nat :: 0 < n <= |migrations| && rows == ListedRows(migrations, n) ==> requireAligned && n < |migrations|
  }

  lemma {:induction false} RefusedIff(rows: seq<HistoryRow>, migrations: seq<Migration>, requireAligned: bool)
    ensures Refused(rows, migrations, requireAligned) <==>
      !exists pending :: HistoryLeaves(rows, migrations, requireAligned, pending)
  {
    forall n: nat | 0 < n <= |migrations| && rows == ListedRows(migrations, n) && !(requireAligned && n < |migrations|)
      ensures HistoryLeaves(rows, migrations, requireAligned, migrations[n..])
    {
      assert LeavesSuffix(rows, migrations, requireAligned, migrations[n..], n);
    }
  }

  /** The rows that rule a good listing out. */
  ghost predicate BadRow(rows: seq<HistoryRow>, i: nat)
    requires i < |rows|
  {
    || rows[i].local.None?
    || (rows[i].remote.Some? && rows[i].remote != rows[i].local)
    || (rows[i].remote.Some? && i > 0 && rows[i - 1].remote.None?)
  }

  predicate GapAt(rows: seq<HistoryRow>, i: int) {
    0 < i < |rows| && rows[i].remote.Some? && rows[i - 1].remote.None?
  }

  /** What each refusal of the history check says about the listing. */
  ghost predicate Explained(rows: seq<HistoryRow>, migrations: seq<Migration>, e: GateError) {
    match e
    case LocalMismatch => Locals(rows) != Versions(migrations)
    case RemoteDuplicates => !DistinctStrings(Remotes(rows))
    case NoBaseline => Remotes(rows) == []
    case Diverges(v) => exists row :: row in rows && row.local == Some(v) && row.remote.Some? && row.remote != row.local
    case MissingLocally(v) => HistoryRow(None, Some(v)) in rows
    case Gap => exists i :: GapAt(rows, i)
    case NotAligned => exists n: nat :: n < |migrations| && rows == ListedRows(migrations, n)
    case _ => false
  }

  lemma {:induction false} BadRowRefuses(rows: seq<HistoryRow>, migrations: seq<Migration>, i: nat,
                                         requireAligned: bool)
    requires i < |rows| && BadRow(rows, i)
    ensures Refused(rows, migrations, requireAligned)
  {
    forall n: nat | |rows| == |migrations| ensures rows != ListedRows(migrations, n) {
      var good := ListedRows(migrations, n);
      assert rows[i] != good[i] || (i > 0 && rows[i - 1] != good[i - 1]);
    }
  }

  lemma {:induction false} ListingPasses(rows: seq<HistoryRow>, migrations: seq<Migration>, requireAligned: bool)
    requires DistinctVersions(migrations)
    requires Locals(rows) != Versions(migrations) || !DistinctStrings(Remotes(rows)) || Remotes(rows) == []
    ensures Refused(rows, migrations, requireAligned)
  {
    forall n: nat | 0 < n <= |migrations| ensures rows != ListedRows(migrations, n) {
      ListedShape(ListedRows(migrations, n), migrations, n);
    }
  }

  /** After i rows: n applied in order, then only pending ones, which are collected. */
  ghost predicate ReadSoFar(rows: seq<HistoryRow>, migrations: seq<Migration>, i: nat, n: nat,
                            sawPending: bool, pendingVersions: seq<string>) {
    && n <= i <= |rows| && i <= |migrations|
    && (forall k :: 0 <= k < i ==> rows[k] == ListedRows(migrations, n)[k])
    && Locals(rows[..i]) == Versions(migrations)[..i]
    && (sawPending <==> n < i) && pendingVersions == Versions(migrations)[n..i]
  }

  lemma {:induction false} LocalsGrow(rows: seq<HistoryRow>, i: nat)
    requires i < |rows| && rows[i].local.Some?
    ensures Locals(rows[..i + 1]) == Locals(rows[..i]) + [rows[i].local.value]
  {
    assert rows[..i + 1][..i] == rows[..i];
  }

  lemma {:induction false} PrefixNext(versions: seq<string>, i: nat, v: string)
    requires i <= |versions| && versions[..i] + [v] <= versions
    ensures i < |versions| && versions[i] == v && versions[..i + 1] == versions[..i] + [v]
  {
    assert (versions[..i] + [v])[i] == versions[i];
  }

  /** A further row takes the next repository version. */
  lemma {:induction false} NextLocal(rows: seq<HistoryRow>, migrations: seq<Migration>, i: nat)
    requires i < |rows| && Locals(rows) == Versions(migrations) && i <= |migrations|
    requires Locals(rows[..i]) == Versions(migrations)[..i] && rows[i].local.Some?
    ensures i < |migrations| && rows[i].local.value == migrations[i].version
    ensures Locals(rows[..i + 1]) == Versions(migrations)[..i + 1]
  {
    LocalsPrefix(rows, i + 1);
    LocalsGrow(rows, i);
    PrefixNext(Versions(migrations), i, rows[i].local.value);
  }

  lemma {:induction false} AppliedRow(rows: seq<HistoryRow>, migrations: seq<Migration>, i: nat,
                                      pendingVersions: seq<string>)
    requires ReadSoFar(rows, migrations, i, i, false, pendingVersions) && i < |rows|
      && Locals(rows) == Versions(migrations)
    requires rows[i].local.Some? && rows[i].remote == rows[i].local
    ensures ReadSoFar(rows, migrations, i + 1, i + 1, false, pendingVersions)
  {
    NextLocal(rows, migrations, i);
    forall k | 0 <= k < i + 1 ensures rows[k] == ListedRows(migrations, i + 1)[k] {
      if k < i { assert rows[k] == ListedRows(migrations, i)[k]; }
    }
  }

  lemma {:induction false} PendingRow(rows: seq<HistoryRow>, migrations: seq<Migration>, i: nat, n: nat,
                                      sawPending: bool, pendingVersions: seq<string>)
    requires ReadSoFar(rows, migrations, i, n, sawPending, pendingVersions) && i < |rows|
      && Locals(rows) == Versions(migrations)
    requires rows[i].local.Some? && rows[i].remote.None?
    ensures ReadSoFar(rows, migrations, i + 1, n, true, pendingVersions + [rows[i].local.value])
  {
    NextLocal(rows, migrations, i);
  }

  /** The loop over the rows: the versions not applied yet, or the first row that refuses the history. */
  method ReadRows(rows: seq<HistoryRow>, migrations: seq<Migration>, ghost requireAligned: bool)
    returns (r: Result<seq<string>, GateError>)
    requires forall row :: row in rows ==> row.local.Some? || row.remote.Some?
    requires Locals(rows) == Versions(migrations) && Remotes(rows) != []
    ensures r.Failure? ==> Refused(rows, migrations, requireAligned) && Explained(rows, migrations, r.error)
    ensures r.Success? ==>
      var n := |migrations| - |r.value|;
      0 < n && rows == ListedRows(migrations, n) && r.value == Versions(migrations)[n..]
  {
    var pendingVersions: seq<string> := [];
    var sawPending := false;
    ghost var n := 0;
    for i := 0 to |rows|
      invariant ReadSoFar(rows, migrations, i, n, sawPending, pendingVersions)
    {
      var row := rows[i];
      assert row in rows;
      if row.local.Some? && row.remote.Some? {
        if row.local != row.remote {
          BadRowRefuses(rows, migrations, i, requireAligned);
          return Failure(Diverges(row.local.value));
        }
        if sawPending {
          assert rows[i - 1] == ListedRows(migrations, n)[i - 1];
          assert GapAt(rows, i);
          BadRowRefuses(rows, migrations, i, requireAligned);
          return Failure(Gap);
        }
      } else if row.remote.Some? {
        BadRowRefuses(rows, migrations, i, requireAligned);
        return Failure(MissingLocally(row.remote.value));
      }
      if row.remote.Some? {
        AppliedRow(rows, migrations, i, pendingVersions);
        n := n + 1;
      } else {
        PendingRow(rows, migrations, i, n, sawPending, pendingVersions);
        sawPending := true;
        pendingVersions := pendingVersions + [row.local.value];
      }
    }
    WholeListing(rows, migrations, n, sawPending, pendingVersions);
    return Success(pendingVersions);
  }

  /**
    The history check.  It succeeds exactly when the remote history is a non-empty prefix
    of the repository's versions, listed in order, and returns exactly the rest, which
    must be empty when alignment is required.
   */
  method ValidateHistory(rows: seq<HistoryRow>, migrations: seq<Migration>, requireAligned: bool)
    returns (r: Result<seq<Migration>, GateError>)
    requires forall row :: row in rows ==> row.local.Some? || row.remote.Some?
    requires DistinctVersions(migrations)
    ensures r.Success? <==> exists pending :: HistoryLeaves(rows, migrations, requireAligned, pending)
    ensures r.Success? ==> HistoryLeaves(rows, migrations, requireAligned, r.value)
    ensures r.Failure? ==> Explained(rows, migrations, r.error)
  {
    RefusedIff(rows, migrations, requireAligned);
    if Locals(rows) != Versions(migrations) {
      ListingPasses(rows, migrations, requireAligned);
      return Failure(LocalMismatch);
    }
    if !DistinctStrings(Remotes(rows)) {
      ListingPasses(rows, migrations, requireAligned);
      return Failure(RemoteDuplicates);
    }
    if Remotes(rows) == [] {
      ListingPasses(rows, migrations, requireAligned);
      return Failure(NoBaseline);
    }
    var read := ReadRows(rows, migrations, requireAligned);
    if read.Failure? { return Failure(read.error); }
    var pendingVersions := read.value;
    ghost var n := |migrations| - |pendingVersions|;
    if requireAligned && pendingVersions != [] {
      NotAlignedRefuses(rows, migrations, n);
      return Failure(NotAligned);
    }
    PickSuffix(migrations, n, pendingVersions);
    r := Success(Pick(ByVersion(migrations), pendingVersions));
    assert LeavesSuffix(rows, migrations, requireAligned, r.value, n);
  }

  lemma {:induction false} NotAlignedRefuses(rows: seq<HistoryRow>, migrations: seq<Migration>, n: nat)
    requires n < |migrations| && rows == ListedRows(migrations, n)
    ensures Refused(rows, migrations, true) && Explained(rows, migrations, NotAligned)
  {
    forall m: nat | m <= |migrations| && rows == ListedRows(migrations, m) ensures m == n {
      ListedRowsDetermineN(migrations, n, m);
    }
  }

  /** `[by_version[version] for version in versions]` */
  function Pick(byVersion: map<string, Migration>, versions: seq<string>): seq<Migration>
    requires forall i :: 0 <= i < |versions| ==> versions[i] in byVersion
  {
    seq(|versions|, i requires 0 <= i < |versions| => byVersion[versions[i]])
  }

  lemma {:induction false} PickSuffix(migrations: seq<Migration>, n: nat, pendingVersions: seq<string>)
    requires DistinctVersions(migrations) && n <= |migrations| && pendingVersions == Versions(migrations)[n..]
    ensures forall i :: 0 <= i < |pendingVersions| ==> pendingVersions[i] in ByVersion(migrations)
    ensures Pick(ByVersion(migrations), pendingVersions) == migrations[n..]
  {
    forall i | 0 <= i < |pendingVersions|
      ensures pendingVersions[i] in ByVersion(migrations)
      ensures ByVersion(migrations)[pendingVersions[i]] == migrations[n..][i]
    {
      ByVersionFinds(migrations, n + i);
    }
  }

  lemma {:induction false} WholeListing(rows: seq<HistoryRow>, migrations: seq<Migration>, n: nat, sawPending: bool,
                                        pendingVersions: seq<string>)
    requires ReadSoFar(rows, migrations, |rows|, n, sawPending, pendingVersions)
    requires Locals(rows) == Versions(migrations) && Remotes(rows) != []
    ensures rows == ListedRows(migrations, n) && 0 < n <= |migrations| && pendingVersions == Versions(migrations)[n..]
  {
    assert rows[..|rows|] == rows;
    assert |rows| == |migrations|;
    ListedColumns(migrations, n, |rows|);
  }

  // ---------------------------------------------------------------- the pending file

  function WritePending(pending: seq<Migration>): string {
    if pending == [] then "" else pending[0].name + "\n" + WritePending(pending[1..])
  }

  /** Length of the first line, without its break. */
  function LineLength(s: string): (n: nat)
    ensures n <= |s| && (forall i :: 0 <= i < n ==> !IsLineBreak(s[i])) && (n < |s| ==> IsLineBreak(s[n]))
  {
    if s == "" || IsLineBreak(s[0]) then 0 else 1 + LineLength(s[1..])
  }

  /** `text.splitlines()`; a carriage return and line feed count as one break. */
  function SplitLines(s: string): seq<string>
    decreases |s|
  {
    if s == "" then []
    else
      var n := LineLength(s);
      if n == |s| then [s]
      else if n + 1 < |s| && s[n] == '\r' && s[n + 1] == '\n' then [s[..n]] + SplitLines(s[n + 2..])
      else [s[..n]] + SplitLines(s[n + 1..])
  }

  /** The stripped lines that are not blank. */
  function ListedNames(lines: seq<string>): seq<string> {
    if lines == [] then []
    else (if Strip(lines[0]) != "" then [Strip(lines[0])] else []) + ListedNames(lines[1..])
  }

  function ByName(migrations: seq<Migration>): (m: map<string, Migration>) {
    if migrations == [] then map[]
    else ByName(migrations[..|migrations| - 1])[migrations[|migrations| - 1].name := migrations[|migrations| - 1]]
  }

  function ReadPending(text: string, migrations: seq<Migration>): Result<seq<Migration>, GateError> {
    var names := ListedNames(SplitLines(text));
    var byName := ByName(migrations);
    if exists name :: name in names && name !in byName then Failure(UnknownFiles)
    else Success(seq(|names|, i requires 0 <= i < |names| => assert names[i] in names; byName[names[i]]))
  }

  lemma {:induction false} LineOfName(name: string, rest: string)
    requires IsPlainName(name)
    ensures SplitLines(name + "\n" + rest) == [name] + SplitLines(rest)
  {
    var s := name + "\n" + rest;
    LineLengthIs(s, |name|);
    assert s[..|name|] == name && s[|name| + 1..] == rest;
  }

  lemma {:induction false} LineLengthIs(s: string, n: nat)
    requires n < |s| && IsLineBreak(s[n]) && forall i :: 0 <= i < n ==> !IsSpace(s[i])
    ensures LineLength(s) == n
  {
    if n > 0 { LineLengthIs(s[1..], n - 1); }
  }

  lemma {:induction false} WrittenLines(pending: seq<Migration>)
    requires forall i :: 0 <= i < |pending| ==> IsPlainName(pending[i].name)
    ensures ListedNames(SplitLines(WritePending(pending))) == Names(pending)
  {
    if pending != [] {
      var name, rest := pending[0].name, WritePending(pending[1..]);
      WrittenLines(pending[1..]);
      LineOfName(name, rest);
      assert Strip(name) == name;
      var lines := [name] + SplitLines(rest);
      assert lines[0] == name && lines[1..] == SplitLines(rest);
      assert ListedNames(lines) == [name] + ListedNames(SplitLines(rest));
      assert Names(pending) == [name] + Names(pending[1..]);
    }
  }

  lemma {:induction false} ByNameFinds(migrations: seq<Migration>, i: nat)
    requires i < |migrations| && WellNamed(migrations)
    ensures migrations[i].name in ByName(migrations) && ByName(migrations)[migrations[i].name] == migrations[i]
    decreases |migrations|
  {
    if i < |migrations| - 1 { ByNameFinds(migrations[..|migrations| - 1], i); }
  }

  /** Every one of these migrations is found under its own name. */
  ghost predicate AllFound(pending: seq<Migration>, byName: map<string, Migration>) {
    forall k :: 0 <= k < |pending| ==> pending[k].name in byName && byName[pending[k].name] == pending[k]
  }

  lemma {:induction false} ReadsNames(text: string, pending: seq<Migration>, migrations: seq<Migration>)
    requires ListedNames(SplitLines(text)) == Names(pending) && AllFound(pending, ByName(migrations))
    ensures ReadPending(text, migrations) == Success(pending)
  {
    forall name | name in Names(pending) ensures name in ByName(migrations) {
      var k :| 0 <= k < |pending| && Names(pending)[k] == name;
    }
    var r := ReadPending(text, migrations);
    assert r.Success? && forall k :: 0 <= k < |pending| ==> r.value[k] == pending[k];
    assert r.value == pending;
  }

  lemma {:induction false} MembersFound(pending: seq<Migration>, migrations: seq<Migration>)
    requires WellNamed(migrations) && forall m :: m in pending ==> m in migrations
    ensures AllFound(pending, ByName(migrations)) && forall k :: 0 <= k < |pending| ==> IsPlainName(pending[k].name)
  {
    forall k | 0 <= k < |pending|
      ensures IsPlainName(pending[k].name)
      ensures pending[k].name in ByName(migrations) && ByName(migrations)[pending[k].name] == pending[k]
    {
      assert pending[k] in migrations;
      var i :| 0 <= i < |migrations| && migrations[i] == pending[k];
      ByNameFinds(migrations, i);
    }
  }

  /** Writing the pending list and reading it back gives the same migrations in the same order. */
  lemma {:induction false} PendingRoundTrip(pending: seq<Migration>, migrations: seq<Migration>)
    requires WellNamed(migrations) && forall m :: m in pending ==> m in migrations
    ensures ReadPending(WritePending(pending), migrations) == Success(pending)
  {
    MembersFound(pending, migrations);
    WrittenLines(pending);
    ReadsNames(WritePending(pending), pending, migrations);
  }

  /** Lines, each ended by a line feed. */
  function Lines(lines: seq<string>): string { if lines == [] then "" else lines[0] + "\n" + Lines(lines[1..]) }

  predicate IsLine(s: string) { forall i :: 0 <= i < |s| ==> !IsLineBreak(s[i]) }

  lemma {:induction false} LineLengthOf(line: string, rest: string)
    requires IsLine(line)
    ensures LineLength(line + "\n" + rest) == |line|
  {
    var s := line + "\n" + rest;
    if line != "" {
      assert s[0] == line[0] && s[1..] == line[1..] + "\n" + rest;
      LineLengthOf(line[1..], rest);
    }
  }

  /** Lines written one by one are read back one by one. */
  lemma {:induction false} LinesReadBack(lines: seq<string>)
    requires forall i :: 0 <= i < |lines| ==> IsLine(lines[i])
    ensures SplitLines(Lines(lines)) == lines
  {
    if lines != [] {
      var s := Lines(lines);
      LineLengthOf(lines[0], Lines(lines[1..]));
      LinesReadBack(lines[1..]);
      assert s[..|lines[0]|] == lines[0] && s[|lines[0]| + 1..] == Lines(lines[1..]);
    }
  }

  /** The file holds one name a line. */
  lemma {:induction false} PendingFileText(pending: seq<Migration>)
    ensures WritePending(pending) == Lines(Names(pending))
  {
    if pending != [] {
      var names, rest := Names(pending), Names(pending[1..]);
      PendingFileText(pending[1..]);
      assert names[1..] == rest && names[0] == pending[0].name;
      assert Lines(names) == names[0] + "\n" + Lines(rest);
      assert WritePending(pending) == names[0] + "\n" + WritePending(pending[1..]);
    } else {
      assert Names(pending) == [];
    }
  }

  lemma {:induction false} ListedIff(lines: seq<string>, name: string)
    ensures name in ListedNames(lines) <==> name != "" && exists l :: l in lines && Strip(l) == name
  {
    if lines != [] {
      ListedIff(lines[1..], name);
      assert lines[0] in lines && forall l :: l in lines <==> l == lines[0] || l in lines[1..];
      assert (exists l :: l in lines && Strip(l) == name) <==>
        Strip(lines[0]) == name || exists l :: l in lines[1..] && Strip(l) == name;
    }
  }

  lemma {:induction false} NamedIff(migrations: seq<Migration>, name: string)
    ensures name in ByName(migrations) <==> exists m :: m in migrations && m.name == name
    ensures name in ByName(migrations) ==>
      ByName(migrations)[name] in migrations && ByName(migrations)[name].name == name
  {
    if migrations != [] {
      var n := |migrations| - 1;
      NamedIff(migrations[..n], name);
      assert migrations == migrations[..n] + [migrations[n]];
    }
  }

  lemma {:induction false} UnknownLines(lines: seq<string>, migrations: seq<Migration>)
    ensures (exists name :: name in ListedNames(lines) && name !in ByName(migrations)) <==>
      exists l :: l in lines && Strip(l) != "" && forall m :: m in migrations ==> m.name != Strip(l)
  {
    forall name | name in ListedNames(lines) && name !in ByName(migrations)
      ensures exists l :: l in lines && Strip(l) != "" && forall m :: m in migrations ==> m.name != Strip(l)
    {
      ListedIff(lines, name);
      NamedIff(migrations, name);
      var l :| l in lines && Strip(l) == name;
    }
    forall l | l in lines && Strip(l) != "" && forall m :: m in migrations ==> m.name != Strip(l)
      ensures Strip(l) in ListedNames(lines) && Strip(l) !in ByName(migrations)
    {
      ListedIff(lines, Strip(l));
      NamedIff(migrations, Strip(l));
    }
  }

  /**
    A list of lines is refused exactly when some line, stripped and not blank, names no
    migration of the repository; otherwise it is read as migrations with those names in order.
   */
  lemma {:induction false} PendingIsRead(lines: seq<string>, migrations: seq<Migration>)
    requires forall i :: 0 <= i < |lines| ==> IsLine(lines[i])
    ensures
      var r := ReadPending(Lines(lines), migrations);
      && (r == Failure(UnknownFiles) <==>
            exists l :: l in lines && Strip(l) != "" && forall m :: m in migrations ==> m.name != Strip(l))
      && (r.Success? ==> Names(r.value) == ListedNames(lines) && forall m :: m in r.value ==> m in migrations)
      && (r.Failure? ==> r.error == UnknownFiles)
  {
    LinesReadBack(lines);
    UnknownLines(lines, migrations);
    if ReadPending(Lines(lines), migrations).Success? {
      var names := ListedNames(lines);
      forall k | 0 <= k < |names|
        ensures names[k] in ByName(migrations) && ByName(migrations)[names[k]] in migrations
        ensures ByName(migrations)[names[k]].name == names[k]
      {
        assert names[k] in names;
        NamedIff(migrations, names[k]);
      }
    }
  }

  // ---------------------------------------------------------------- the dry run

  /** A well-formed `db push --dry-run` payload. */
  datatype Plan = Plan(dryRun: bool, upToDate: bool, planned: seq<string>, seeds: nat, roles: nat)

  function ValidateDryRun(plan: Plan, pending: seq<Migration>): Option<GateError> {
    if !plan.dryRun then Some(NotADryRun)
    else if plan.seeds > 0 then Some(UnexpectedSeeds)
    else if plan.roles > 0 then Some(UnexpectedRoles)
    else if plan.planned != Names(pending) then Some(PlanMismatch)
    else if plan.upToDate != (pending == []) then Some(UpToDateMismatch)
    else None
  }

  lemma {:induction false} SuffixPlan(migrations: seq<Migration>, n: nat, plan: Plan)
    requires n <= |migrations|
    ensures ValidateDryRun(plan, migrations[n..]).None? <==>
      && plan.dryRun && plan.seeds == 0 && plan.roles == 0
      && plan.planned == Names(migrations)[n..] && (plan.upToDate <==> n == |migrations|)
  {
    assert Names(migrations[n..]) == Names(migrations)[n..];
  }

  /** The listing once these migrations have been applied remotely. */
  function Apply(rows: seq<HistoryRow>, applied: seq<Migration>): (r: seq<HistoryRow>)
    ensures |r| == |rows|
  {
    seq(|rows|, i requires 0 <= i < |rows| =>
      if rows[i].local.Some? && rows[i].local.value in Versions(applied) then HistoryRow(rows[i].local, rows[i].local)
      else rows[i])
  }

  lemma {:induction false} ApplyLists(migrations: seq<Migration>, n: nat, k: nat)
    requires DistinctVersions(migrations) && n + k <= |migrations|
    ensures Apply(ListedRows(migrations, n), migrations[n..n + k]) == ListedRows(migrations, n + k)
  {
    var applied := Versions(migrations[n..n + k]);
    forall i | 0 <= i < |migrations| ensures migrations[i].version in applied <==> n <= i < n + k {
      if n <= i < n + k { assert applied[i - n] == migrations[i].version; }
      if migrations[i].version in applied {
        var j :| 0 <= j < k && applied[j] == migrations[i].version;
        assert migrations[n + j].version == migrations[i].version;
      }
    }
  }

  lemma {:induction false} LeavesOnlyRest(migrations: seq<Migration>, n: nat, requireAligned: bool)
    requires 0 < n <= |migrations|
    ensures forall rest :: HistoryLeaves(ListedRows(migrations, n), migrations, requireAligned, rest) <==>
      rest == migrations[n..] && (requireAligned ==> n == |migrations|)
  {
    forall rest | HistoryLeaves(ListedRows(migrations, n), migrations, requireAligned, rest)
      ensures rest == migrations[n..] && (requireAligned ==> n == |migrations|)
    {
      var m: nat :| LeavesSuffix(ListedRows(migrations, n), migrations, requireAligned, rest, m);
      ListedRowsDetermineN(migrations, n, m);
    }
    assert (requireAligned ==> n == |migrations|) ==>
      LeavesSuffix(ListedRows(migrations, n), migrations, requireAligned, migrations[n..], n);
  }

  /**
    Applying the first k pending migrations to an accepted history leaves exactly the rest
    pending, and the aligned check accepts the result exactly when that was all of them.
   */
  lemma {:induction false} ApplyAdvances(rows: seq<HistoryRow>, migrations: seq<Migration>, pending: seq<Migration>,
                                         k: nat)
    requires DistinctVersions(migrations) && HistoryLeaves(rows, migrations, false, pending) && k <= |pending|
    ensures
      var after := Apply(rows, pending[..k]);
      && (forall rest :: HistoryLeaves(after, migrations, false, rest) <==> rest == pending[k..])
      && (forall rest :: HistoryLeaves(after, migrations, true, rest) <==> rest == [] && k == |pending|)
  {
    var n: nat :| LeavesSuffix(rows, migrations, false, pending, n);
    assert pending[..k] == migrations[n..n + k] && pending[k..] == migrations[n + k..];
    ApplyLists(migrations, n, k);
    LeavesOnlyRest(migrations, n + k, false);
    LeavesOnlyRest(migrations, n + k, true);
  }

  lemma {:induction false} AlignedAfterApply(rows: seq<HistoryRow>, migrations: seq<Migration>, pending: seq<Migration>)
    requires DistinctVersions(migrations) && HistoryLeaves(rows, migrations, false, pending)
    ensures forall rest :: HistoryLeaves(Apply(rows, pending), migrations, true, rest) <==> rest == []
  {
    ApplyAdvances(rows, migrations, pending, |pending|);
    assert pending[..|pending|] == pending;
  }

  /** The applied versions are a non-empty prefix of the repository's, and the pending ones the rest of it. */
  lemma {:induction false} HistorySuffix(rows: seq<HistoryRow>, migrations: seq<Migration>, pending: seq<Migration>)
    returns (n: nat)
    requires DistinctVersions(migrations) && HistoryLeaves(rows, migrations, false, pending)
    ensures 0 < n <= |migrations| && Remotes(rows) == Versions(migrations)[..n] && pending == migrations[n..]
  {
    n :| LeavesSuffix(rows, migrations, false, pending, n);
    ListedShape(rows, migrations, n);
  }

  /**
    The gate from end to end, for every accepted repository and every accepted history:
    the applied versions are a non-empty prefix; the pending list survives the file; the
    dry run is accepted exactly when it plans that very suffix, agrees on being up to date
    and has no seeds or roles; and once the suffix is applied, the aligned history check
    passes with nothing pending.
   */
  lemma {:induction false} GatePipeline(lib: Library, entries: seq<Entry>, legacyIntact: bool,
                                        migrations: seq<Migration>, rows: seq<HistoryRow>,
                                        pending: seq<Migration>, plan: Plan)
    returns (n: nat)
    requires ValidLibrary(lib) && DistinctNames(entries) && Acceptable(lib, entries, legacyIntact, migrations)
    requires HistoryLeaves(rows, migrations, false, pending)
    ensures 0 < n <= |migrations| && Remotes(rows) == Versions(migrations)[..n] && pending == migrations[n..]
    ensures ReadPending(WritePending(pending), migrations) == Success(pending)
    ensures ValidateDryRun(plan, pending).None? <==>
      && plan.dryRun && plan.seeds == 0 && plan.roles == 0
      && plan.planned == Names(migrations)[n..] && (plan.upToDate <==> n == |migrations|)
    ensures forall rest :: HistoryLeaves(Apply(rows, pending), migrations, true, rest) <==> rest == []
  {
    AcceptedNames(lib, entries, legacyIntact, migrations);
    n := HistorySuffix(rows, migrations, pending);
    SuffixPlan(migrations, n, plan);
    PendingRoundTrip(pending, migrations);
    AlignedAfterApply(rows, migrations, pending);
  }
}
