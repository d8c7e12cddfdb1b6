# Verified model of the Mexican bank monitor's fail-closed core

This project models, in Dafny, the parts of the bank monitor that must never choose a hidden
winner, never overwrite and never let an ambiguous state pass: release identity and lineage, the
two create-only artifact stores, authorised retrieval, the production migration gate and the dated
identity contracts. One module follows one component:

| file | what it models |
|---|---|
| `IdentityPayload.dfy`, `IdentityText.dfy` | the canonical JSON text of a release identity, a decoder for it, and a JSON writer it is proved against |
| `Lineage.dfy` | the supersession graph of a family and the search for its unique head |
| `Classification.dfy`, `CatalogRuns.dfy` | classification against the full prior catalogue, and runs of "classify, then catalogue" |
| `Observation.dfy` | building an observed release, and the fail-first observation of the three-artifact package |
| `CatalogText.dfy` | header and structure validation of the delimited catalogues |
| `Summary.dfy` | audit-safe error summaries |
| `LocalStore.dfy`, `RemoteStore.dfy`, `ArtifactKey.dfy` | the two `put_if_absent` protocols under every interleaving, and canonical keys |
| `LocalProgress.dfy`, `RemoteProgress.dfy` | how calls on the two stores end, and that they do |
| `Retrieval.dfy` | the redirect loop around the retry loop, against an arbitrary world, with an event trace |
| `SqlScanner.dfy`, `SqlSegments.dfy`, `MigrationGate.dfy` | the in-place SQL scanner and statement check; the grammar it reads; repository, history, pending list and dry run |
| `DatedIdentity.dfy` | overlap checks that make date-indexed lookup single-valued |
| `Prelude.dfy`, `Strings.dfy`, `PyText.dfy` | results, code-point text, ordering and sorting, words, identifiers, whitespace, numerals |

Modelling decisions a reader needs:

- SHA-256 is an arbitrary function. No theorem assumes it injective; where one needs freedom from
  collisions it assumes it for exactly the two texts it compares.
- In the discovery modules text is a sequence of code points that may include lone surrogates,
  as a Python `str` may. Elsewhere it is Dafny's `string`.
- A loop of the source is a loop here, proved against a specification function, and what the
  source promises is proved about that function. The two stores are transition systems instead,
  one program counter per call over a shared store, because their properties are about every
  interleaving of any number of calls. A schedule chooses who moves, how much each read or write
  transfers, which requests take effect when, and every failure.
- The repository classifies releases but does not persist them yet. Runs add the obvious
  cataloguing step: a first or revised release is appended, and the catalogue may come back in any
  order.
- Retrieval is run against a world whose responses and authorisation answers may depend on
  everything that happened before. A transport error in the middle of a body is not wrapped by
  `_read_body`, so it leaves as an error of its own (`Escaped`); no claim is made that every
  failure is one of the retrieval errors.

Three properties a reader might expect are false of the code, and are proved with their exact
condition or a witness:

- The canonical identity text is not injective: two inputs share it if and only if they agree once
  surrogate pairs held as two separate code points are fused (`EncodeAlikeIff`). Every accepted
  revision with such a split pair therefore collides with another accepted one
  (`SplitPairCollides`), and the round trip holds if and only if there is none (`RoundTrip`).
- Joining an accepted SQL text to another with a semicolon does not always split them there. When
  the first ends inside a line comment, the rest of the line after the semicolon is comment too and
  its violations are lost (`CommentHides`). Under any tests that forbid some single line, it composes
  with every text if and only if its scan ends in the normal state (`ComposesIffNormal`).
- With the legacy check on, the "no migration files" error cannot occur, since an empty directory
  is already refused for its missing legacy file (part of `LoadMigrations`).

## Model

| member | source | states |
|---|---|---|
| IdentityPayload.HashesIff | src/mx_bank_monitor/ingestion/discovery.py:706-739 | Exactly the well-formed inputs have an identity (each role once, in any order, every text valid), and it is the hash of the text with the pairs arranged by role |
| IdentityPayload.HashRefusals | src/mx_bank_monitor/ingestion/discovery.py:706-728 | A refusal blames the scheme, then the source, then the family whenever that one is at fault and those before it are not; otherwise it names a blank revision, a malformed digest, or missing, malformed or repeated roles that are there |
| IdentityPayload.IdentityHashOrderIndependent | src/mx_bank_monitor/ingestion/discovery.py:715-739 | Supplying the same role/digest pairs in any order gives the same identity or the same error |
| IdentityPayload.DecodeEncode | src/mx_bank_monitor/ingestion/discovery.py:729-738 | The canonical JSON of any payload, valid or not, decodes to that payload with split surrogate pairs fused |
| IdentityPayload.RoundTrip | src/mx_bank_monitor/ingestion/discovery.py:706-739 | For every validated payload the canonical JSON decodes back to it if and only if its revision holds no split surrogate pair |
| IdentityPayload.EncodeInjective | src/mx_bank_monitor/ingestion/discovery.py:729-739 | On such payloads equal canonical texts mean equal scheme, source, family, revision and pairs |
| IdentityPayload.EncodeFuse | src/mx_bank_monitor/ingestion/discovery.py:729-738 | Every payload, valid or not, has the canonical text of its form with split surrogate pairs fused |
| IdentityPayload.EncodeAlikeIff | src/mx_bank_monitor/ingestion/discovery.py:729-738 | Two payloads share a canonical text if and only if they agree once split pairs are fused |
| IdentityPayload.SplitPairCollides | src/mx_bank_monitor/ingestion/discovery.py:719-738 | Every validated payload whose revision holds a split pair shares its canonical text with a different validated payload, its fused form |
| IdentityPayload.SplitPairExists | src/mx_bank_monitor/ingestion/discovery.py:719-723 | Under any validated inputs there is an accepted revision with a split pair |
| IdentityPayload.IdentityDeterminesRelease | src/mx_bank_monitor/ingestion/discovery.py:706-739 | Equal identities mean the same inputs up to pair order, unless the two texts at hand collide under SHA-256 |
| IdentityText.EncodeIsJson | src/mx_bank_monitor/ingestion/discovery.py:729-738 | The hashed text of every payload is what an independent JSON writer makes of its fields: compact, ASCII-escaped, keys sorted at both levels |
| IdentityText.CharIsUnits | src/mx_bank_monitor/ingestion/discovery.py:736-738 | Each character is written unit by unit as that writer does: itself when printable ASCII other than quote and backslash, a short escape where there is one, else one lowercase four-digit escape for each UTF-16 unit |
| IdentityText.FieldsAreVerbatim | src/mx_bank_monitor/ingestion/discovery.py:706-739 | In a validated payload scheme, source, family, roles and digests stand in the text character by character between their quotes |
| Strings.StrLtIff | src/mx_bank_monitor/ingestion/discovery.py:715 | The order roles are sorted by is that of Python strings: at the first difference the smaller code point, or the shorter text, comes first |
| Strings.Alphabets | src/mx_bank_monitor/ingestion/discovery.py:30-34 | The character classes of identifiers and digests, letter by letter |
| Strings.IdentifierIff | src/mx_bank_monitor/ingestion/discovery.py:30 | Identifiers are exactly lowercase alphanumeric words joined by underscores, the first beginning with a letter |
| Strings.SchemeIff | src/mx_bank_monitor/ingestion/discovery.py:31-33 | Identity schemes are exactly such words joined by underscores and at least one dot, in at most 128 characters |
| Lineage.CollectSuperseded | src/mx_bank_monitor/ingestion/discovery.py:776-786 | The first loop fails exactly when some predecessor is not in the catalogue, and otherwise returns all the superseded identities |
| Lineage.ResolveUniqueHead | src/mx_bank_monitor/ingestion/discovery.py:772-808 | On distinct identities the search returns exactly what `Resolve` owes: dangling, no head, several heads, a cycle, not one chain, or the head with all other identities |
| Lineage.FollowLineage | src/mx_bank_monitor/ingestion/discovery.py:791-808 | The walk from the only head terminates (measure: releases not yet visited) and decides between cycle, disconnected graph and one chain |
| Lineage.WalkIntoCycle | src/mx_bank_monitor/ingestion/discovery.py:794-799 | A walk that meets itself, from the only head, proves that no release of the catalogue is a root |
| Lineage.ChainUnique | src/mx_bank_monitor/ingestion/discovery.py:772-808 | Releases with distinct identities can be arranged as one supersession chain in at most one way |
| Lineage.ResolveIffChain | src/mx_bank_monitor/ingestion/discovery.py:772-808 | The search succeeds exactly when some ordering of the releases is one supersession chain ending in a root, and returns that chain's first element and all the other identities |
| Lineage.ResolveOrderIndependent | src/mx_bank_monitor/ingestion/discovery.py:772-808 | The verdict, error included, does not depend on the order of the catalogue |
| Classification.ClassifyRelease | src/mx_bank_monitor/ingestion/discovery.py:811-892 | Classification, as coded, gives the specified verdict for every catalogue and never violates its own result's contract |
| Classification.RevisedPasses | src/mx_bank_monitor/ingestion/discovery.py:877-892 | A new identity over the head's roles always has at least one role whose digest differs, so the revised result is always well formed |
| Classification.ClassifyNeverTripsItsChecks | src/mx_bank_monitor/ingestion/discovery.py:671-703 | The constructor checks of a classification never fail on what classification builds, whatever the catalogue holds |
| Classification.ForeignCatalogueRefused | src/mx_bank_monitor/ingestion/discovery.py:818-840 | A catalogue of another source or family, or with a row whose identity is not the hash of its own artifacts under the observed scheme, is refused, in that order |
| Classification.WithoutHead | src/mx_bank_monitor/ingestion/discovery.py:844-855 | With nothing catalogued the release is the first and every role new; a catalogue that is no chain is refused with the reason the head search gives |
| CatalogRuns.ClassifyAgainstChain | src/mx_bank_monitor/ingestion/discovery.py:855-892 | Against a chain: roles differing, a superseded identity reappearing, unchanged and revised each occur exactly when they should; the head is what is superseded; unchanged marks every role reused, and revised marks a role revised and changed exactly when its digest differs from the head's |
| CatalogRuns.UnchangedIffSamePairs | src/mx_bank_monitor/ingestion/discovery.py:862-871 | Unchanged holds exactly when every role/digest pair equals the head's, unless the two identity texts collide |
| CatalogRuns.ClassifyOrderIndependent | src/mx_bank_monitor/ingestion/discovery.py:811-892 | The classification does not depend on the order of the catalogue |
| CatalogRuns.RunIsSound | src/mx_bank_monitor/ingestion/discovery.py:811-892 | At every point of every run the catalogue is the history of catalogued rows: one chain, distinct valid identities that reproduce from their pairs, one role set |
| CatalogRuns.RunKeepsOneChain | src/mx_bank_monitor/ingestion/discovery.py:811-892 | At every point of every run the catalogue is one supersession chain, in the order its releases were catalogued |
| CatalogRuns.RunKeepsItsHead | src/mx_bank_monitor/ingestion/discovery.py:855-892 | At every point of every run the head search succeeds, and its head is the last release catalogued |
| CatalogRuns.RunKeepsItsRoles | src/mx_bank_monitor/ingestion/discovery.py:856-861 | One role set runs through the whole catalogue |
| CatalogRuns.RunFailures | src/mx_bank_monitor/ingestion/discovery.py:857-876 | In a run the only failures are a changed role set and a reappearing superseded identity, each exactly when it is the case |
| CatalogRuns.RollbackFailsClosed | src/mx_bank_monitor/ingestion/discovery.py:862-876 | An identity accepted earlier in a run is later either the head again, hence unchanged, or refused |
| Observation.BuildsIffShapesMatch | src/mx_bank_monitor/ingestion/discovery.py:533-572 | A release is built exactly when the observed roles and formats are exactly the discovered ones, each once; it holds the artifacts in role order and its identity is valid for classification |
| Observation.BuildOrderIndependent | src/mx_bank_monitor/ingestion/discovery.py:560-572 | The built release, or the error, does not depend on the order of the artifacts |
| Observation.ReleaseSays | src/mx_bank_monitor/ingestion/discovery.py:533-572 | A built release records the least time of observation, one metadata row for each artifact with its role, format, length and structure, and the hash of its own pairs |
| Observation.BuildRefused | src/mx_bank_monitor/ingestion/discovery.py:742-770 | When no release is built there are no artifacts, a role is repeated, a named role was not observed in its format, or a role is outside the release, and the error says which |
| Observation.DiscoveredIsValid | src/mx_bank_monitor/ingestion/cnbv_portfolio.py:603-618 | The discovered release satisfies its constructor for every configured adapter, roles in role order, each at its configured URL |
| Observation.Observe | src/mx_bank_monitor/ingestion/cnbv_portfolio.py:694-713 | Roles are requested in catalogue-then-archive order and none after the first failure; a release comes out exactly when all three came with content in their structure, and holds exactly what was seen; otherwise the failure names the last role requested and the time it was seen, else the clock |
| Observation.PackageBuilds | src/mx_bank_monitor/ingestion/cnbv_portfolio.py:710-713 | Three validated artifacts in retrieval order always build a release |
| CatalogText.SplitIff | src/mx_bank_monitor/ingestion/cnbv_portfolio.py:298-307 | The first line is split off exactly when the text is that line, free of CR and LF, one LF or CRLF, and the rest |
| CatalogText.CatalogAcceptedIff | src/mx_bank_monitor/ingestion/cnbv_portfolio.py:367-391 | A catalogue is accepted, with a given structure, exactly when it is an optional mark, the frozen header on a line of its own with that ending, and something other than line ends after it, in NUL-free UTF-8 |
| CatalogText.CatalogRefused | src/mx_bank_monitor/ingestion/cnbv_portfolio.py:367-391 | A refusal names the first check that fails, each in terms of the bytes: NUL, encoding, line ending, header encoding, header, no data row |
| Summary.SanitizeIsProjection | src/mx_bank_monitor/ingestion/discovery.py:42-48 | Every summary comes out audit-safe, exactly the audit-safe texts come out unchanged, and sanitising is idempotent |
| Summary.SanitizeKeepsWords | src/mx_bank_monitor/ingestion/discovery.py:42-48 | A summary is the value's words, control characters counting as spaces, one space between each two; when that is longer than 512, its first 509 characters without whitespace at the end, and three dots |
| Strings.SplitFindsWords | src/mx_bank_monitor/ingestion/discovery.py:45 | Splitting finds exactly the words that were put together with whitespace around them |
| ArtifactKey.KeyRoundTrip | src/mx_bank_monitor/ingestion/artifacts.py:88-100 | A storage key is accepted exactly when it is the canonical key of a digest, and then yields that digest |
| LocalStore.PutIsSafe | src/mx_bank_monitor/ingestion/artifacts.py:206-254 | For every interleaving, partial transfer and fault, including errors reported after a link or unlink took effect: at most one call returns STORED, none if the target existed; a normal return means the target holds exactly the payload; a reported collision means it holds other bytes; corruption is never reported |
| LocalStore.PublishedFileNeverChanges | src/mx_bank_monitor/ingestion/artifacts.py:206-254 | From the moment the target exists it keeps its bytes for ever |
| LocalStore.GetIsAllOrNothing | src/mx_bank_monitor/ingestion/artifacts.py:256-273 | A concurrent get reads only prefixes of the published file, returns all of it and only with the right digest, reports corruption only of a published file with the wrong one, and absence only after opening a target that was not there |
| LocalStore.ExactlyOneStored | src/mx_bank_monitor/ingestion/artifacts.py:206-254 | When all writers of one payload finish without faults exactly one returns STORED, the rest REUSED, and no temporary file is left |
| LocalProgress.GetDeliversPublished | src/mx_bank_monitor/ingestion/artifacts.py:256-273 | A get that opens after publication and meets no error of its own returns exactly the published bytes when they have the digest and is refused exactly when they have not, after at most two moves more than there are bytes |
| LocalProgress.UnharmedGet | src/mx_bank_monitor/ingestion/artifacts.py:256-273 | A get fails with a backend error only after an error of its own |
| LocalProgress.UnharmedPut | src/mx_bank_monitor/ingestion/artifacts.py:206-254 | A put that meets no error of its own ends stored or reused exactly when the target holds its payload and as a collision exactly when it holds other bytes |
| LocalProgress.PutFinishes | src/mx_bank_monitor/ingestion/artifacts.py:206-254 | Every put, harmed or not and whatever the others do, is done after a number of moves bounded by its payload and the published file |
| LocalProgress.NothingIsLeft | src/mx_bank_monitor/ingestion/artifacts.py:214-254 | Finished calls, harmed or not and whatever their payloads, leave no temporary file, unless an error hid the making of one or stopped its removal |
| LocalProgress.HarmedPut | src/mx_bank_monitor/ingestion/artifacts.py:214-254 | An error between the existence test and the cleanup makes the put end with a backend error, whatever happens afterwards |
| LocalProgress.HarmedGet | src/mx_bank_monitor/ingestion/artifacts.py:256-267 | An error that strikes an unfinished get makes it end with a backend error |
| RemoteStore.PutIsSafe | src/mx_bank_monitor/ingestion/artifacts.py:413-498 | Over all interleavings, lost responses and late effects: a normal return means the key holds exactly the payload; at most one call per key returns STORED, none if the key was taken; a reported collision is a SHA-256 collision and reported corruption an object with other bytes |
| RemoteStore.ObjectsNeverChange | src/mx_bank_monitor/ingestion/artifacts.py:437-475 | No existing object is changed or removed, from any point of any run to any later point |
| RemoteProgress.PutStores | src/mx_bank_monitor/ingestion/artifacts.py:413-466 | From the beginning, under any interleaving: a call whose upload is accepted and whose read-back succeeds, perhaps after transient failures, returns STORED and the key holds its payload |
| RemoteProgress.AcceptedUploadIsStored | src/mx_bank_monitor/ingestion/artifacts.py:456-466 | The same for any later attempt: an accepted upload that is read back is STORED |
| RemoteProgress.ExistingObjectDecides | src/mx_bank_monitor/ingestion/artifacts.py:468-498 | After a duplicate answer or an ambiguous one the object read back decides: the same bytes are REUSED, other bytes corruption, or a collision when a duplicate has the digest |
| RemoteProgress.UnreadObjectDecides | src/mx_bank_monitor/ingestion/artifacts.py:452-498 | When the object cannot be read: after an ambiguous answer an absent object is posted again while attempts are left and is unknown after the last; after a duplicate the error stands; otherwise the outcome is unknown |
| RemoteProgress.ExhaustedReadDecides | src/mx_bank_monitor/ingestion/artifacts.py:500-513 | When every attempt to read fails transiently a duplicate ends as a backend error and everything else as unknown |
| RemoteProgress.RefusedUploadFails | src/mx_bank_monitor/ingestion/artifacts.py:468-475 | Any other answer to the upload is the failure of the call: unauthorised, not found or backend |
| RemoteProgress.CallPosts | src/mx_bank_monitor/ingestion/artifacts.py:437-450 | An attempt posts exactly the payload under its canonical key and awaits the answer to that very request |
| RemoteStore.PutIsBounded | src/mx_bank_monitor/ingestion/artifacts.py:437-513 | At most create_attempts POSTs, create_attempts * read_attempts GETs, and create_attempts * b * (2^(read_attempts-1) - 1) seconds of backoff |
| RemoteStore.ReadBackWaits | src/mx_bank_monitor/ingestion/artifacts.py:500-513 | In any run, n transient failures of one read-back cost n GETs and doubling pauses that sum to 2^n - 1 times the first; the last attempt costs no pause and ends it as a backend error |
| RemoteStore.EveryMoveUsesFuel | src/mx_bank_monitor/ingestion/artifacts.py:437-513 | Every move of an unfinished call, through the mutual recursion of create and resolve, strictly decreases a measure |
| RemoteStore.PutTerminates | src/mx_bank_monitor/ingestion/artifacts.py:437-513 | However others are scheduled, a call makes at most create_attempts * (read_attempts + 2) moves |
| Retrieval.ParsersAgree | src/mx_bank_monitor/ingestion/http.py:140-149 | The optional and the required length parser give the same length; one raises exactly where the other forgets a header that was there |
| Retrieval.LengthIff | src/mx_bank_monitor/ingestion/http.py:557-566 | Both parsers give n exactly when the header is the decimal numeral of n, perhaps after zeros and between whitespace, and n is below 2^63; any other header is refused by one and ignored by the other |
| PyText.DigitsCountInTens | src/mx_bank_monitor/ingestion/http.py:563 | Each digit of a numeral counts ten times the one after it |
| Retrieval.LocationIff | src/mx_bank_monitor/ingestion/http.py:410-419 | A redirect reference is used exactly when it stands, without whitespace inside, between whitespace, in a header without control characters |
| Retrieval.MakesIffHonest | src/mx_bank_monitor/ingestion/http.py:428-491 | A response makes an artifact exactly when it is a complete 200 with identity encoding, within the cap, whose length header, if any, denotes its true length; the artifact is exactly its bytes and observation |
| Retrieval.HonestWorldDelivers | src/mx_bank_monitor/ingestion/http.py:244-283 | Against a world that answers honestly, retrieval makes one request and returns the bytes of its answer |
| Retrieval.SteadyFailureEnds | src/mx_bank_monitor/ingestion/http.py:322-382 | When every answer is the same failure: a persistent one (protocol error, transport failure, 429, 5xx) is asked three times over three seconds, any other once, and the error is the one for that answer |
| Retrieval.RedirectIsFollowed | src/mx_bank_monitor/ingestion/http.py:265-283 | A redirect to an authorised URL that answers honestly is followed there with one request, and its bytes are delivered under that URL and chain |
| Retrieval.ReadBody | src/mx_bank_monitor/ingestion/http.py:493-524 | The body is the concatenation of all chunks, returned exactly when complete and within the cap; each failure is accounted for; the client closes the response itself only on success |
| Retrieval.ArtifactFromResponse | src/mx_bank_monitor/ingestion/http.py:428-491 | An artifact is made exactly when status, encoding, declared length, body and cap allow it; otherwise the error is the first of these that fails, in the order in which they are checked |
| Retrieval.RedirectTarget | src/mx_bank_monitor/ingestion/http.py:384-426 | A redirect is followed exactly when the reference is usable, the target authorised, not visited and within the limit; each refusal is accounted for |
| Retrieval.UseResponse | src/mx_bank_monitor/ingestion/http.py:348-380 | An opened response is closed again on every path and decides the hop: retry exactly on 429 and 5xx, redirect or deliver exactly when it should, each refusal accounted for at the very point of the trace where it happened |
| Retrieval.Exchange | src/mx_bank_monitor/ingestion/http.py:305-382 | One hop leaves exactly a prefix of request, 1s, request, 2s, request for its authorised URL; it goes on exactly while its answers ask for a retry, and its last answer decides whether it delivers, redirects and whereto, or fails and why |
| Retrieval.FollowHops | src/mx_bank_monitor/ingestion/http.py:265-283 | The redirect loop terminates; every hop after the first is the usable, authorised, unvisited target of the redirect that ended the hop before; all requests and pauses of the trace are the hops', in order |
| Retrieval.Retrieve | src/mx_bank_monitor/ingestion/http.py:244-283 | For every world: bad arguments and an unauthorised first URL send nothing; otherwise every request, pause and hop is accounted for by the answers before it, at most max_redirects hops after the first and none twice, and the last answer decides the result or error |
| Retrieval.RetrievalIsBounded | src/mx_bank_monitor/ingestion/http.py:51-58 | At most 3 * (max_redirects + 1) requests and as many seconds of pause |
| Retrieval.OneHopWithoutRedirects | src/mx_bank_monitor/ingestion/http.py:363-380 | A world that never redirects is asked for nothing but the requested URL |
| Retrieval.AuthorizedBefore | src/mx_bank_monitor/ingestion/http.py:384-426 | Every request comes after an accepting authorisation of its very URL |
| Retrieval.OpenedIsClosed | src/mx_bank_monitor/ingestion/http.py:61-74 | Every opened response is closed exactly once, before any later request, pause or other response |
| Retrieval.ClosedWasOpen | src/mx_bank_monitor/ingestion/http.py:61-74 | Every close belongs to an opened response |
| Retrieval.RetrievedIsExact | src/mx_bank_monitor/ingestion/http.py:428-555 | A retrieved artifact is exactly the chunks of the answer to the last request, within the cap; its recorded length is absent or its length; its chain is the hops after the first and its final URL the last of them, or the requested URL |
| SqlScanner.StripSqlLiteralsAndComments | scripts/validate_production_migrations.py:236-335 | The in-place scanner computes the specified text, and raises exactly on an unterminated literal or block comment |
| SqlSegments.SegmentsAreRead | scripts/validate_production_migrations.py:249-331 | In the terms of a grammar of SQL text, without the scanner: segments (code, line comment with its end, balanced nested block comment, single- or double-quoted text, dollar string) before any text show their code and blank the rest, and the text after them is stripped, or refused, as if it stood alone |
| SqlSegments.StrippedIffSegments | scripts/validate_production_migrations.py:236-335 | The scanner accepts exactly the texts that are segments to the end, and shows exactly their code with every other character but line ends blanked |
| SqlSegments.RefusedIffUnclosed | scripts/validate_production_migrations.py:333-334 | It refuses exactly the texts that are segments up to a comment, quote or dollar string that never ends, and names its kind |
| SqlScanner.StrippedIsClean | scripts/validate_production_migrations.py:236-335 | The output has the input's length, keeps CR and LF where they were, is the input or a space everywhere, holds no comment, quote or dollar opener, and scans to itself |
| SqlScanner.ForbiddenOperations | scripts/validate_production_migrations.py:338-348 | The nested loops collect exactly the violations of the statements in order, and raise exactly when the scanner does |
| SqlSegments.GateReads | scripts/validate_production_migrations.py:338-348 | For a text of given segments whose code is given statements: an operation is reported exactly when a statement with any word in it, upper-cased and its words joined by spaces, matches its pattern |
| SqlScanner.ReportedIff | scripts/validate_production_migrations.py:341-348 | The same for the statements of any text |
| SqlScanner.StatementsIff | scripts/validate_production_migrations.py:341 | The statements are exactly the semicolon-free parts that make up the text |
| SqlScanner.PatternsInOrder | scripts/validate_production_migrations.py:345-347 | Within a statement the patterns report in order |
| SqlScanner.ScanJoin | scripts/validate_production_migrations.py:249-331 | After a text that ends in the normal state a semicolon is kept and the scan goes on as if it began afresh |
| SqlScanner.StatementsCompose | scripts/validate_production_migrations.py:338-348 | When `a` scans to the normal state, `a;b` is refused exactly when `b` is, and its violations are those of `a` followed by those of `b`, for any patterns and upper-casing |
| SqlScanner.CommentHides | scripts/validate_production_migrations.py:338-348 | When `a` ends inside a line comment, a following line adds no violation whatever it says |
| SqlScanner.ComposesIffNormal | scripts/validate_production_migrations.py:338-348 | Under any tests that forbid some single line, and an upper-casing that leaves a final space alone, an accepted text composes with every text if and only if its scan ends in the normal state; otherwise that very line is lost |
| SqlScanner.LineCommentSwallows | scripts/validate_production_migrations.py:279-285 | When `a` ends inside a line comment, a following semicolon and line are blanked whatever they say |
| MigrationGate.ListEntries | scripts/validate_production_migrations.py:86-99 | The migrations are the well-named files in order, and the errors name exactly the directories and the ill-named files |
| MigrationGate.PrefixErrors | scripts/validate_production_migrations.py:106-111 | The errors name exactly the pairs of versions, earlier first, one of which is a prefix of the other |
| MigrationGate.ChronologicalIffSortedFixed | scripts/validate_production_migrations.py:113-115 | Sorting by numeric value changes nothing exactly when the versions already rise |
| MigrationGate.LoadMigrations | scripts/validate_production_migrations.py:82-132 | The repository loads exactly when every entry is well named, versions are prefix-free and chronological and the legacy file is there and intact; otherwise the errors are exactly the faults: each bad entry, the repeated versions, each ambiguous pair, wrong order, legacy file missing or changed |
| MigrationGate.AcceptableIffNoFault | scripts/validate_production_migrations.py:82-132 | A directory is an acceptable repository exactly when none of these faults is present, and then in one way only |
| MigrationGate.VersionIff | scripts/validate_production_migrations.py:63-74 | A name yields a version exactly when it is the legacy name, with its own, or fourteen digits that are a date, an identifier and the suffix, with those digits |
| MigrationGate.AcceptedNames | scripts/validate_production_migrations.py:82-132 | An accepted repository has distinct versions and distinct names without whitespace |
| MigrationGate.ReadRows | scripts/validate_production_migrations.py:206-224 | The row loop returns the pending versions exactly of a listing whose applied rows come first; each refusal names its cause |
| MigrationGate.ValidateHistory | scripts/validate_production_migrations.py:185-233 | Succeeds exactly when the remote history is a non-empty prefix of the repository versions listed in order; the result is exactly the remaining suffix, empty when alignment is required; each refusal names its cause |
| MigrationGate.PendingRoundTrip | scripts/validate_production_migrations.py:360-368 | Writing any list of repository migrations and reading it back gives the same list in order |
| MigrationGate.PendingIsRead | scripts/validate_production_migrations.py:360-368 | A list of lines is refused exactly when some line, stripped and not blank, names no migration of the repository; otherwise it is read as migrations with those names in order |
| MigrationGate.PendingFileText | scripts/validate_production_migrations.py:403-405 | The file written holds one name and a line feed for each pending migration, in order |
| MigrationGate.ApplyAdvances | scripts/validate_production_migrations.py:206-233 | Applying the first k pending migrations to an accepted history leaves exactly the rest pending, and the aligned check accepts the result exactly when that was all of them |
| MigrationGate.GatePipeline | scripts/validate_production_migrations.py:185-405 | For every accepted repository and history: pending is the suffix after a non-empty applied prefix, it survives the pending file, a plan is accepted exactly when it is that suffix and agrees on being up to date, and applying that suffix to that history passes the aligned check with nothing pending |
| DatedIdentity.OverlapIffCommonDate | src/mx_bank_monitor/config/models.py:118-126 | Ordered ranges overlap exactly when some date lies in both |
| DatedIdentity.PairwiseIffSingleValued | src/mx_bank_monitor/config/models.py:300-341 | The pairwise checks pass exactly when on every date every identity has at most one covering record |
| DatedIdentity.FindClash | src/mx_bank_monitor/config/models.py:300-323 | The nested loop finds nothing exactly when lookup by identity and date is single-valued, and otherwise finds a clashing pair |
| DatedIdentity.Duplicate | src/mx_bank_monitor/config/models.py:103-109 | Returns nothing exactly when all values are distinct, and otherwise the first value that repeats an earlier one |
| DatedIdentity.CheckMemberships | src/mx_bank_monitor/config/models.py:277-296 | An institution's memberships pass exactly when its cohorts are declared and it is in each at most once on every date; each refusal names its cause |
| DatedIdentity.ValidateIdentityContracts | src/mx_bank_monitor/config/models.py:268-342 | The document passes exactly when codes are unique and institution/cohort, registration and alias lookups by date are single-valued; each refusal names its cause |
| DatedIdentity.RegistrationsMean | src/mx_bank_monitor/config/models.py:300-323 | Registration lookup is single-valued exactly when no two registrations of the document, of one institution or of two, with one regulator, type and code cover one day |
| DatedIdentity.AliasesMean | src/mx_bank_monitor/config/models.py:325-341 | Alias lookup is single-valued exactly when no two aliases of the document with one source and one normalised value cover one day |
| DatedIdentity.MembershipsMean | src/mx_bank_monitor/config/models.py:283-296 | Membership lookup is single-valued exactly when no two memberships of the institution in one cohort cover one day |
| DatedIdentity.ConceptTextInjective | src/mx_bank_monitor/config/models.py:433-437 | Colon-joined concept identities are equal exactly when source, code and version are |
| DatedIdentity.MappingTextInjective | src/mx_bank_monitor/config/models.py:439-452 | Colon-joined mapping identities are equal exactly when all six fields are |
| DatedIdentity.ValidateMappingVersions | src/mx_bank_monitor/config/models.py:431-480 | The document passes exactly when concepts and versioned mappings are unique field by field and active mappings are single-valued by date |
| DatedIdentity.MappingsMean | src/mx_bank_monitor/config/models.py:454-479 | Active mappings are single-valued exactly when no two of them with one source, concept, concept version, canonical concept and scope cover one day |

## Left out

- Both stores are transition systems and not methods: what they lose is the shape of the calls, not their branches; the mutual recursion of `_create` and `_resolve_ambiguous` is a move from reading back to creating again.
- The local store's outcome-unknown branch is not represented: once the link is made, the read-back turns every operating-system error into a backend error, so no such error reaches that branch.
- Local paths, directory creation and its lock, fsync durability, and operating-system errors raised by the existence test itself.
- The wire format of the remote store: URLs, headers, and the JSON of an error body, which is reduced to its code.
- The remote `get` and both `verify` calls on their own: a single read-back is part of every put.
- Retrieval.ParsersAgree: Python's limit on the length of a decimal string turned into an integer is not modelled.
- The client's own default byte limit, which stands in when a call gives none, and the order of argument checks.
- Authorisation rules, URL joining, TLS, pinned certificates, the legacy `download`, entity tags and other header fields of an observation.
- Observation.Observe: ZIP inspection, media type and file-name checks are one abstract verdict per artifact, and a failure row carries its role and time but not its URL, code and header fields.
- CatalogText.CatalogAcceptedIff: the header digest stored in the structure is represented by the header itself, and UTF-8 decoding is an arbitrary function.
- The fields of a discovered release that must stay null, and the checks that times are timezone-aware.
- SqlScanner.StatementsCompose: the forbidden patterns and Unicode upper-casing are arbitrary functions, so nothing is said about which SQL is forbidden; collapsing whitespace is modelled.
- MigrationGate.ValidateHistory: JSON parsing is not modelled; its guarantee that a row names a local or a remote version is a precondition.
- MigrationGate.GatePipeline: the JSON types of the dry-run payload are taken as already checked, and applying a migration is its effect on the history listing alone.
- MigrationGate.LoadMigrations: skipping the legacy check is not modelled, whether the legacy file's canonical bytes have their recorded hash is a parameter, and the digit class, the calendar test and integer conversion are arbitrary functions.
- DatedIdentity.ValidateIdentityContracts: alias normalisation is an arbitrary function; dates are day numbers; field parsing is not modelled.
- Cross-references between configuration documents, metric formulas, command-line and user-interface code, and rules that live only in SQL files.
