# Verification of the IAM watcher, schema projection and config rules

This project models four parts of the IAM repository in Dafny and proves what they promise.

**The access-request watcher** (`internal/iambot`). A process lists a changing backlog page by
page, compares it with a durable set of ids it has seen, announces the difference to every
operator, and saves the set by temporary file and rename. `AccessWatcher.dfy` holds the objects
(`State`, `StateFile`, `Bot`, `Poller`) with their loops; each method is proved to take a step of
the state machine in `WatcherSpec.dfy`, whose events also include failed polls, failed saves,
crashes in the middle of announcing and restarts. The theorems there quantify over every finite
run. `WatcherRefinement.dfy` relates the machine to one that remembers only the previous listing.
`Listing.dfy` proves the pagination loop against any keyset server over a backlog that may change
before every request, and that the Postgres adapter is such a server, whatever collation orders the
ids. Its result, listings without repeated ids, is what the bound on announcements asks for.
`WatcherRuns.dfy` puts the pieces together: it drives the objects over a whole run, from pages to
the messages attempted, bounds these by what really happened to the backlog and the process, and
says exactly which of them become cards in the operators' chats.

**The OpenAPI 3.1 to 3.0 projection** (`scripts/openapi_to_30.py`). `YamlTree.dfy` gives the
conversion as a function on trees, `YamlNormalForm.dfy` its fixed points, and `YamlWeight.dfy` a
weight that drops whenever it changes something. `SchemaMeaning.dfy`, `SchemaExactness.dfy` and
`SchemaLosses.dfy` compare the values a schema accepts before and after. `YamlHeap.dfy` is the
script as written: it rewrites shared dictionaries in place, visits a shared node once per
reference, and keeps no record of what it has visited. The proof carries a ghost phase for every
cell (untouched, busy, done) and shows that the document ends up as the converted tree.

**Project configuration** (`internal/domain/configspec.go`, `origins.go`). Role lists, auth
methods, MFA policies, rate limits, consents, session lifetimes and CORS origins.

**Secrets and cookies** (`internal/webhooksecret`, `pkg/api/cookie.go`). Base64 as in section 4 of
RFC 4648, and lifetimes in 64-bit nanoseconds up to the Max-Age attribute of section 5.2.2 of
RFC 6265. `Text.dfy` and `Bytes.dfy` hold white space, order and UTF-8.

Where the code and its documentation differ, the model follows the code:

- The projection's docstring calls it lossless. What the output accepts is stated exactly in terms of
  the source (`OutputMeaning`), and validity is preserved at every schema object the script keeps if
  and only if each of them is lossless: accepted enum members survive, null is accepted where the
  source is marked nullable, and the keywords that leave no trace were redundant
  (`PreservesEverywhereIff`). The families where this fails have their own equivalences: `type` lists
  without a concrete name (`TypeListPreservesIff`), a null `enum` member of a type that excludes null
  (`TypedEnumPreservesIff`), `enum` members that are rewritten (`EnumPreservesIff`), and an `allOf`
  overwritten by a null-branched `anyOf` (`OverwrittenAllOfPreservesIff`).
- It can also lose accepted values, because `convert` walks into `enum` members and rewrites those
  that look like schemas. No value is lost at any kept schema object if and only if no member that
  the node accepts contains a null marker or a type list (`WidensEverywhereIffNormal`,
  `EnumWidensIff`).
- A nested type list makes a second run differ, and nothing else does (`IdempotentIffFlatTypes`).
- An origin is meant to be stored in canonical form, but normalising is not always idempotent. It is
  on ASCII text without percent signs (`AsciiIsIdempotent`); in general the stored form of an accepted
  text changes again if and only if the host the text names has a percent sign left after decoding, or
  ends in white space (`IdempotentIffHostSettled`, `TrailingSpaceIsNotIdempotent`).
- A request counts as announced once its messages have been attempted. A send that fails is swallowed,
  the id is remembered, and no further attempt is made while it stays listed (`NeverRetried`,
  `CardsAreFinal`). An operator has a card if and only if some attempt was answered without error
  (`ToldIffAnswered`); one who blocked the bot never gets any (`BlockedIsNeverTold`).
- An accepted session policy can be impossible to complete: exactly two comparisons are missing from
  the checks (`CompletableIff`).
- The comment above the session-policy ordering names `absolute <= refresh`; the code does not
  compare the two (`AbsoluteMayExceedRefresh`).
- The staleness test of the health check means "three intervals" only while three intervals fit a
  64-bit duration (`StaleMeansThreeIntervalsIff`).
- Decoding a webhook secret ignores line breaks and unused bits, so a key has several texts
  (`TwoTextsOneKey`) but one canonical text (`CanonicalTextIff`).

Check everything with `dafny verify dfyconfig.toml`.

## Model

| member | source | states |
|---|---|---|
| WatcherSpec.AnnouncementsBounded | internal/iambot/poller.go:52-96 | over every run with failed polls, failed saves, mid-pass crashes and restarts, the tries to announce an id number at most its observed appearances in the backlog plus the restarts |
| WatcherSpec.BoundIsReached | internal/iambot/poller.go:72-95 | the bound is tight: for every n a run with n restarts and one appearance announces the id n + 1 times |
| WatcherSpec.TriedOnce | internal/iambot/poller.go:72-88 | one pass tries an id at most once, and only if it is listed and not remembered |
| WatcherSpec.UnseenInOrder | internal/iambot/state.go:49-59 | the difference keeps the order of the listing and drops exactly the remembered ids |
| WatcherSpec.NothingLostSilently | internal/iambot/poller.go:72-95 | every id in memory or on disk was remembered at the start, announced, or absorbed by a cold-start pass |
| WatcherSpec.ColdStartIsQuiet | internal/iambot/poller.go:72-79 | without a state file nothing is announced before or by the first completed pass, however often the process fails before, and that pass remembers its listing |
| WatcherSpec.QuietOnlyBeforeFirstSave | internal/iambot/poller.go:74-79 | after the first saved pass no run contains a quiet pass |
| WatcherSpec.EveryListedIdIsAnnounced | internal/iambot/poller.go:52-96 | from the first saved pass on, an id listed by a completed pass was already remembered or has been announced |
| WatcherSpec.NeverRetried | internal/iambot/poller.go:72-91 | an id in memory is not announced again while passes keep listing it, whatever became of its sends |
| WatcherSpec.AppearancesAndAbsences | internal/iambot/state.go:11-22 | an id appears in the listings at most once more than it is absent from one |
| WatcherRefinement.WatcherRefinesSimple | internal/iambot/state.go:49-76 | over every run the seen-set watcher announces, in the same order, what the machine announces that only remembers the previous listing, and its seen set is that listing |
| WatcherRefinement.FreshStartRefines | internal/iambot/state.go:24-46 | the same from a missing state file |
| WatcherRefinement.RestartAfterSaveUnobservable | internal/iambot/state.go:84-105 | deleting a restart that follows a saved pass from a run changes neither the announcements nor the final state |
| WatcherRefinement.SavedMatchesMemory | internal/iambot/poller.go:90-95 | after a saved pass, and any failed polls and restarts behind it, disk and memory agree |
| AccessWatcher.State.constructor | internal/iambot/state.go:26-46 | loading yields the saved state, or the fresh state without a file |
| AccessWatcher.State.Diff | internal/iambot/state.go:49-59 | the unseen ids in the given order |
| AccessWatcher.State.MarkSeen | internal/iambot/state.go:62-66 | the seen set grows by exactly the given ids |
| AccessWatcher.State.Prune | internal/iambot/state.go:70-76 | the seen set becomes its intersection with the live ids |
| AccessWatcher.State.Save | internal/iambot/state.go:85-105 | the file holds the whole new state on success and the old one after any failure |
| AccessWatcher.Bot.Announce | internal/iambot/bot.go:251-270 | a send is attempted to every operator whoever fails, each may be answered differently, and the error is the first failure |
| AccessWatcher.Poller.PollOnce | internal/iambot/poller.go:52-96 | a pass takes exactly the state machine's step, attempts exactly its announcements operator by operator, each with a request of the listing as listed, and reports the listing outcome |
| AccessWatcher.Poller.PollAndCrash | internal/iambot/poller.go:52-88 | a pass that dies while announcing leaves the file alone, has attempted exactly the messages tried so far, each with a listed request, and its replacement starts in the state machine's crash successor |
| AccessWatcher.Poller.Prepare | internal/iambot/poller.go:62-79 | before announcing, a pass has computed the fresh ids (none on a cold start) and only set FirstRunDone |
| AccessWatcher.Poller.IndexListing | internal/iambot/poller.go:62-70 | the live set, the ids in order, and under each id the last request listed with it |
| AccessWatcher.LastWithIsListed | internal/iambot/poller.go:65-70 | the request kept under an id is one of the listing, and no later one has that id |
| AccessWatcher.LastWithIsTheOne | internal/iambot/poller.go:65-70 | in a listing with distinct ids the request kept under an id is the one that has it |
| AccessWatcher.MessagesAreListed | internal/iambot/poller.go:81-88 | every message of an announce loop carries a request of the listing, unchanged |
| AccessWatcher.Poller.AnnounceAll | internal/iambot/poller.go:81-88 | all fresh ids are announced in order, failures notwithstanding |
| AccessWatcher.Poller.NoteResult | internal/iambot/poller.go:99-109 | the report history grows by this outcome and the readiness fields stay consistent with it |
| AccessWatcher.Poller.HealthCheck | internal/iambot/poller.go:123-141 | ready exactly when some listing was reported, the latest succeeded, and it is at most three intervals old; stale exactly when it succeeded and the staleness test holds |
| AccessWatcher.StaleMeansThreeIntervalsIff | internal/iambot/poller.go:117-138 | the staleness test means "older than three intervals" for every age if and only if three intervals fit 64 bits |
| WatcherRuns.Watch | internal/iambot/poller.go:33-50 | over any sequence of ticks, deaths and restarts the objects end in the state machine's state for events whose listings cover the backlog; the messages attempted are exactly those due, in order, each with a request as it was pending during some tick; per operator and id at most one, one per tick in which the id was missing from the backlog, and one per death or restart |
| WatcherRuns.OneTick | internal/iambot/poller.go:33-96 | listing and pass together take one step of the machine and attempt exactly its messages, each with a request as it was pending during this tick; a backlog that stands still is never a failed poll |
| WatcherRuns.FetchListing | internal/iambot/poller.go:53-60 | what the paginated listing guarantees to the pass: distinct ids that cover what stayed, and requests as they were pending |
| WatcherRuns.RealAbsences | internal/iambot/state.go:11-22 | an id absent from a listing was missing from the backlog at some request of that tick, and restarts are the deaths and stops |
| WatcherRuns.AttemptsBounded | internal/iambot/bot.go:251-270 | messages attempted about an id to one operator are bounded by its observed appearances plus restarts, and by real absences plus interruptions plus one; strangers get none |
| WatcherRuns.MessagesHeads | internal/iambot/poller.go:81-88 | the messages of an announce loop are, in order, one per id and operator |
| WatcherRuns.AddressedCount | internal/iambot/bot.go:251-270 | an operator is due exactly one message per try of an id |
| WatcherRuns.CardsAtMostAttempts | internal/iambot/bot.go:251-270 | cards that arrive are no more than messages attempted, so the bounds hold for cards |
| WatcherRuns.MoreCardsIff | internal/iambot/bot.go:251-270 | an operator got another card for an id if and only if some message about it in between was answered without error |
| WatcherRuns.ToldIffAnswered | internal/iambot/poller.go:81-91 | from the first saved pass on, a new id listed by a completed pass has been attempted to every operator, who has a card for it if and only if one of the attempts was answered without error |
| WatcherRuns.CardsAreFinal | internal/iambot/poller.go:81-91 | once a completed pass has listed an id, and while it stays listed and the process runs, no operator's cards for it change |
| WatcherRuns.BlockedIsNeverTold | internal/iambot/poller.go:81-88 | an operator to whom every send fails gets no card in any run |
| Listing.ListPending | internal/iambot/iam.go:90-125 | for any keyset server and any changes between requests: strictly increasing distinct ids, every id pending throughout, only requests that were pending; a standing backlog is listed exactly and completely within as many answers as it has ids plus one |
| Listing.ServerIsKeyset | internal/infrastructure/postgres/admin_pg.go:3487-3525 | the adapter's page (51 rows fetched, 50 shown, cursor = last id) is a keyset page for every backlog, cursor and collation, full exactly when at least 50 requests are left and with more to come exactly when more than 50 are |
| Listing.StandingBacklog | internal/iambot/iam.go:90-125 | a complete listing of an unchanged backlog is exactly the backlog in id order |
| YamlTree.LocalDepth | scripts/openapi_to_30.py:28-66 | rewriting one dictionary never deepens its entries, so the recursion terminates on acyclic input |
| YamlTree.LocalBranches | scripts/openapi_to_30.py:31-40 | what the whole rewrite leaves under anyOf and allOf, including the overwritten allOf |
| YamlTree.LocalType | scripts/openapi_to_30.py:43-54 | what the whole rewrite leaves under type |
| YamlTree.LocalEnum | scripts/openapi_to_30.py:57-60 | what the whole rewrite leaves under enum |
| YamlNormalForm.NullBranchStable | scripts/openapi_to_30.py:33-33 | the null-branch test gives the same answer before and after the branch is converted |
| YamlNormalForm.NormalIsFixed | scripts/openapi_to_30.py:28-67 | a document without null markers and type lists is unchanged and never makes the script exit |
| YamlNormalForm.FixedIsNormal | scripts/openapi_to_30.py:28-67 | conversely, unchanged documents have no null markers and no type lists |
| YamlNormalForm.OutputIsNormal | scripts/openapi_to_30.py:28-67 | the output has neither, anywhere, unless a type list wrapped a list |
| YamlNormalForm.FlatTypeIff | scripts/openapi_to_30.py:43-54 | what is left under type is a list if and only if the collapsed list wrapped one |
| YamlNormalForm.IdempotentIffFlatTypes | scripts/openapi_to_30.py:28-67 | converting twice equals converting once if and only if no kept type list wraps a list |
| YamlNormalForm.SecondVisitHarmlessIff | scripts/openapi_to_30.py:31-60 | running the three steps on a dictionary again neither exits nor changes it if and only if its type list did not wrap a list |
| YamlNormalForm.StringTypesAreFlat | scripts/openapi_to_30.py:43-54 | type lists of strings only satisfy that condition, whether or not the script exits on them |
| YamlNormalForm.SeveralNamesExit | scripts/openapi_to_30.py:46-48 | a type list of strings with several concrete names satisfies it and makes the script exit |
| YamlNormalForm.NestedTypeListIsNotIdempotent | scripts/openapi_to_30.py:43-54 | a concrete document on which a second run differs |
| YamlWeight.ConvertLighter | scripts/openapi_to_30.py:28-67 | the conversion leaves a document unchanged or makes it strictly lighter |
| YamlWeight.SurviveIffUnchanged | scripts/openapi_to_30.py:62-66 | every non-null document of a list reappears among the conversions of the list if and only if none of them is changed |
| SchemaMeaning.ProjectionWidens | scripts/openapi_to_30.py:28-67 | every value valid for the 3.1 schema is valid for the 3.0 output, when no enum member contains a null marker or a type list |
| SchemaMeaning.NodeWidensIff | scripts/openapi_to_30.py:57-63 | over sub-schemas that widen, a schema object widens if and only if each enum member it accepts is still a member |
| SchemaMeaning.WidensEverywhereIff | scripts/openapi_to_30.py:57-63 | no value is lost at any kept schema object if and only if none of them loses an enum member it accepts |
| SchemaMeaning.WidensEverywhereIffNormal | scripts/openapi_to_30.py:57-63 | read off the source: no value is lost at any kept schema object if and only if none accepts an enum member with a null marker or a type list inside |
| SchemaMeaning.EnumWidensIff | scripts/openapi_to_30.py:57-63 | a bare enum keeps all its values if and only if no member contains a null marker or a type list |
| SchemaMeaning.KeptIsSmaller | scripts/openapi_to_30.py:62-66 | the sub-schemas the script keeps are smaller schemas of the fragment on which it does not exit |
| SchemaMeaning.PropertiesAreNotRewritten | scripts/openapi_to_30.py:28-63 | a properties dictionary is never mistaken for a schema, even with properties called type or enum |
| SchemaExactness.MarkedIffNullable | scripts/openapi_to_30.py:31-60 | the output is nullable if and only if the source has a null branch, a null type name, a null enum member, or nullable itself |
| SchemaExactness.OutputMeaning | scripts/openapi_to_30.py:31-63 | over preserved sub-schemas, the output accepts null if the source is marked, and otherwise exactly what the source accepts without the dropped keywords and with its enum members replaced by what they become |
| SchemaExactness.NodePreservesIff | scripts/openapi_to_30.py:31-63 | over preserved sub-schemas, a schema object is preserved if and only if the enum members it accepts survive, null is accepted when marked, and that reading of the source accepts nothing else |
| SchemaExactness.PreservesEverywhereIff | scripts/openapi_to_30.py:28-67 | validity is preserved at every kept schema object if and only if each of them is lossless |
| SchemaExactness.ProjectionPreservesValidity | scripts/openapi_to_30.py:31-60 | source and output accept exactly the same values, null included, when type lists have a concrete name, no allOf is overwritten and null is accepted where it is marked |
| SchemaExactness.OutputIsPlainThreeZero | scripts/openapi_to_30.py:4-13 | every schema object of the output has a single type name, no null branch and no null enum member |
| SchemaLosses.TypeListPreservesIff | scripts/openapi_to_30.py:43-54 | a list of type names is projected without loss if and only if exactly one is concrete |
| SchemaLosses.TypedEnumPreservesIff | scripts/openapi_to_30.py:57-60 | a typed enum is projected without loss if and only if null is a member only of the null type |
| SchemaLosses.EnumPreservesIff | scripts/openapi_to_30.py:57-63 | a bare enum is projected without loss if and only if no member contains a null marker or a type list |
| SchemaLosses.OverwrittenAllOfPreservesIff | scripts/openapi_to_30.py:31-40 | an overwritten allOf costs nothing if and only if it accepts whatever the anyOf accepts, and the anyOf accepts null |
| SchemaLosses.EnumOfObjectsNarrows | scripts/openapi_to_30.py:57-63 | a concrete enum whose only member is rejected after conversion |
| SchemaLosses.OnlyNullTypeWidens | scripts/openapi_to_30.py:49-54 | witness: type ["null"] becomes no type, so a string becomes valid |
| SchemaLosses.NullMemberWidens | scripts/openapi_to_30.py:57-60 | witness: a null enum member makes null valid although the type excludes it |
| SchemaLosses.OverwrittenAllOfWidens | scripts/openapi_to_30.py:36-37 | witness: an allOf beside a null-branched anyOf loses its constraint |
| YamlHeap.ConvertDocument | scripts/openapi_to_30.py:28-67 | converting a document with shared nodes in place exits exactly when the tree conversion would, and otherwise unfolds from the root to the converted tree |
| YamlHeap.ConvertStringTyped | scripts/openapi_to_30.py:28-67 | the same for every document whose type lists hold strings, those on which the script exits included |
| YamlHeap.ConvertInPlace | scripts/openapi_to_30.py:28-67 | one call converts what it reaches from any mixture of converted and unconverted cells and leaves finished and busy cells alone |
| YamlHeap.ConvertDictionary | scripts/openapi_to_30.py:29-63 | the same for a dictionary: its own rewrite, then the loop over its values |
| YamlHeap.ConvertItems | scripts/openapi_to_30.py:64-66 | the same for a list |
| YamlHeap.LocalSteps | scripts/openapi_to_30.py:31-60 | the three in-place steps give the cell the shape of the tree rewrite, exit exactly on several concrete types, and do nothing to a settled cell |
| YamlHeap.StepsTwice | scripts/openapi_to_30.py:31-60 | a dictionary reached twice is rewritten twice, and the second time changes nothing if and only if its type list did not wrap a list |
| YamlHeap.NonNullBranches | scripts/openapi_to_30.py:33-33 | reading branches through the heap selects the branches the trees select |
| YamlHeap.NullTestIsStable | scripts/openapi_to_30.py:33-33 | the test through the heap answers for the original tree in every phase of the branch |
| YamlHeap.DoneUnfolds | scripts/openapi_to_30.py:62-67 | a finished cell unfolds to its converted tree |
| Roles.NormalizeRoles | internal/domain/configspec.go:289-339 | accepts exactly lists whose trimmed entries are 1 to 128 ASCII letters, digits and _ - . : /; the result is their set in increasing order; the first bad entry decides the error |
| Roles.CheckRoleIff | internal/domain/configspec.go:289-325 | which of the three errors a trimmed entry gets, the length counted in bytes, and that an entry without error is a role |
| Text.LessIff | internal/domain/configspec.go:336-336 | the order of the result: the first different character decides, and a proper prefix comes first |
| Bytes.LessIffBytesLess | internal/domain/configspec.go:336-336 | comparing texts by code point is comparing their UTF-8 bytes, as the sort does |
| Text.TrimSpaceOf | internal/domain/configspec.go:310-310 | trimming removes the white space around a text and nothing of the text |
| Text.TrimSpaceParts | internal/domain/configspec.go:310-310 | every text is its trimmed form between white space |
| Text.SpaceTable | internal/domain/configspec.go:310-310 | white space by code point |
| Roles.CanonicalForm | internal/domain/configspec.go:303-339 | two lists have equal results if and only if their trimmed entries are the same set |
| Roles.NormalFormIsFixed | internal/domain/configspec.go:303-339 | results are accepted again and unchanged |
| SeenMap.CheckEntries | internal/domain/configspec.go:885-904 | the seen-map loop accepts exactly when every entry is valid alone and keys are pairwise distinct; a rejection names the first offence |
| SeenMap.FewerEntriesAccepted | internal/domain/configspec.go:885-904 | any list using entries of an accepted list no more often is accepted |
| SeenMap.OrderIrrelevant | internal/domain/configspec.go:885-904 | acceptance is invariant under permutation |
| ConfigDocs.ValidateMethods | internal/domain/configspec.go:509-528 | accepts exactly distinct methods among email, oauth, passkey, magic_link and phone |
| ConfigDocs.ValidateMfaPolicy | internal/domain/configspec.go:782-806 | accepts exactly distinct factors among totp, sms, email_otp, webauthn and backup_codes, not none of them while MFA is required |
| ConfigDocs.FactorAllowed | internal/domain/configspec.go:815-843 | allowed when no factors are listed; otherwise email exactly with email_otp, recovery and backup_codes exactly with backup_codes, any other type exactly with its own name |
| ConfigDocs.EveryFactorIsReal | internal/domain/configspec.go:815-824 | every factor a policy may list is what some database factor type maps to |
| ConfigDocs.FactorNamesDiffer | internal/domain/configspec.go:815-824 | no two database factor types share a policy name |
| ConfigDocs.AcceptedPolicyAllowsSomeFactor | internal/domain/configspec.go:782-843 | under every accepted policy some implemented factor may be enrolled |
| ConfigDocs.FewerFactors | internal/domain/configspec.go:782-806 | dropping or reordering factors keeps acceptance, except emptying the list while MFA is required |
| ConfigDocs.RuleValidIff | internal/domain/configspec.go:912-973 | one rule is valid exactly when it limits a known endpoint per ip, names no action, and allows 1 to 1000000 requests in 1 to 86400 seconds |
| ConfigDocs.EndpointIff | internal/domain/configspec.go:106-135 | which 25 endpoints can be limited |
| ConfigDocs.RulesValidIff | internal/domain/configspec.go:877-905 | the loop with its key accepts exactly valid rules for pairwise different endpoints |
| ConfigDocs.ValidateRateLimits | internal/domain/configspec.go:877-905 | accepts exactly valid rules for pairwise different endpoints |
| ConfigDocs.AtMostOneRulePerEndpoint | internal/domain/configspec.go:877-905 | an accepted document has at most 25 rules |
| ConfigDocs.ValidateConsent | internal/domain/configspec.go:1011-1036 | accepts exactly at most 200 valid documents with pairwise distinct (key, locale, version) |
| ConfigDocs.FewerDocuments | internal/domain/configspec.go:1011-1036 | deleting or reordering documents keeps acceptance |
| ConfigDocs.DocumentValidIff | internal/domain/configspec.go:1040-1100 | one document is valid exactly when it is presentable: named, versioned, of bounded size, with a real locale and link, and with title and content when required |
| ConfigDocs.ConsentAcceptedIff | internal/domain/configspec.go:1011-1100 | a config is accepted if and only if it has at most 200 documents, all presentable, and no two agree in trimmed key, trimmed version and locale, a missing locale being the empty one |
| SessionLifetimes.PairsDecide | internal/domain/configspec.go:684-757 | a policy is accepted if and only if each restriction to at most two lifetimes is |
| SessionLifetimes.SinglesDoNotDecide | internal/domain/configspec.go:734-737 | restrictions to one lifetime do not decide |
| SessionLifetimes.UnsettingKeepsAcceptance | internal/domain/configspec.go:684-757 | unsetting lifetimes keeps acceptance |
| SessionLifetimes.AcceptedIff | internal/domain/configspec.go:684-757 | the chain of checks accepts exactly the policies within the ranges, with known claims, meeting four comparisons |
| SessionLifetimes.FullPolicyOrder | internal/domain/configspec.go:684-757 | a fully set policy is accepted if and only if 0 < access < refresh and access <= idle <= min(absolute, refresh) within the limits |
| SessionLifetimes.CompletableIff | internal/domain/configspec.go:730-757 | a policy extends to a fully set accepted one if and only if it is accepted, access <= absolute where both are set, and refresh exceeds one second |
| SessionLifetimes.AbsoluteMayExceedRefresh | internal/domain/configspec.go:730-757 | an accepted policy can have absolute above refresh |
| SessionLifetimes.MaxAgeIsExactIff | pkg/api/cookie.go:19-28 | a lifetime in seconds reaches Max-Age unchanged if and only if its magnitude is at most 9223372036 |
| SessionLifetimes.CookieLifetimes | pkg/api/cookie.go:19-28 | both Max-Age attributes for every session whose lifetimes survive nanoseconds, without a policy: zero, negative and missing refresh lifetimes included |
| SessionLifetimes.RefreshCookieOutlivesAccess | pkg/api/cookie.go:19-39 | under every accepted policy both cookies live exactly as configured and the refresh cookie outlives the access cookie, also with the 30-day fallback |
| Origins.AcceptedIsOrigin | internal/domain/origins.go:24-62 | everything accepted is https, or http on localhost, 127.0.0.1 or ::1, with a lower-case host that is valid or contains a percent sign, and nothing else |
| OriginTexts.NormalizeOriginIff | internal/domain/origins.go:24-62 | a trimmed text is accepted, as a given origin, if and only if it is http or https in any case, an authority and at most /, ? and # behind it, with a host that is this machine in case of http; the origin is the lower-case scheme and host |
| OriginTexts.ValidHostIff | internal/domain/origins.go:30-33 | a host is a name, or an IPv6 address in brackets, perhaps with a port of digits, made of host characters |
| OriginTexts.HostnameIs | internal/domain/origins.go:44-44 | the host name is the name or address without brackets and port |
| OriginTexts.HostCharTable | internal/domain/origins.go:30-33 | the ASCII characters a host may not contain |
| Origins.OriginIsAccepted | internal/domain/origins.go:24-49 | every valid origin is accepted as it stands, with or without a final slash, unless trimming cuts into it |
| Origins.CanonicalIsFixed | internal/domain/origins.go:24-49 | a canonical origin is returned unchanged |
| Origins.FixedIff | internal/domain/origins.go:24-49 | the texts returned unchanged are exactly the canonical origins |
| Origins.IdempotentIffHostSettled | internal/domain/origins.go:24-49 | normalising twice is normalising once if and only if the text is rejected or the host it names has no percent sign after decoding and no trailing white space |
| Origins.IdempotentIffNoTrailingSpace | internal/domain/origins.go:24-49 | for an accepted text without percent signs: if and only if its authority does not end in white space |
| Origins.AsciiIsIdempotent | internal/domain/origins.go:24-49 | on ASCII text without percent signs normalising is idempotent |
| Origins.TrailingSpaceIsNotIdempotent | internal/domain/origins.go:24-49 | a concrete origin whose stored form changes when normalised again |
| OriginLists.NormalizeOrigins | internal/domain/origins.go:66-89 | the result is the first 1000 distinct valid normal forms in input order |
| OriginLists.FixedListIff | internal/domain/origins.go:66-89 | the lists returned unchanged are exactly those of at most 1000 distinct origins, each returned unchanged |
| OriginLists.AllowedIsRead | internal/domain/origins.go:66-89 | the result contains exactly the valid forms of the entries the loop reads before the cap |
| OriginLists.ListIdempotentIffSettled | internal/domain/origins.go:66-89 | results are distinct origins, at most 1000; normalising again changes nothing if and only if every entry the loop reads is rejected or names a settled host |
| OriginLists.ShortListIdempotentIff | internal/domain/origins.go:66-89 | with at most 1000 entries: if and only if every entry is rejected or names a settled host |
| OriginLists.AsciiListIsIdempotent | internal/domain/origins.go:66-89 | on ASCII entries without percent signs the list normaliser is idempotent |
| WebhookSecret.RequiredIff | internal/webhooksecret/secret.go:17-21 | the secret is missing if and only if it is all white space |
| WebhookSecret.InvalidIff | internal/webhooksecret/secret.go:23-30 | a secret is invalid if and only if it starts with whsec_ and the rest, line breaks aside, is empty or not padded base64; it never falls back to the text |
| WebhookSecret.PrefixedKey | internal/webhooksecret/secret.go:23-30 | a valid prefixed secret yields the bytes its digits spell |
| WebhookSecret.LegacyKey | internal/webhooksecret/secret.go:32-32 | a secret without the prefix yields its trimmed text in UTF-8, one byte per ASCII character |
| WebhookSecret.DistinctLegacyKeys | internal/webhooksecret/secret.go:32-32 | legacy secrets have equal keys if and only if their trimmed texts are equal |
| WebhookSecret.SecretRoundTrip | internal/webhooksecret/secret.go:17-33 | a non-empty key encoded as whsec_ secret is recovered exactly between any white space |
| WebhookSecret.EncodedSecretIsTrimmed | internal/webhooksecret/secret.go:17-33 | the encoded secret needs no trimming and decodes to its key |
| WebhookSecret.DistinctKeysDistinctSecrets | internal/webhooksecret/secret.go:23-30 | distinct keys never share a canonical secret |
| WebhookSecret.TwoTextsOneKey | internal/webhooksecret/secret.go:23-30 | two secrets with one key |
| Base64.DigitTable | internal/webhooksecret/secret.go:23-24 | the alphabet of the standard encoding |
| Base64.DecodesIffPadded | internal/webhooksecret/secret.go:23-27 | a text decodes if and only if it is groups of four alphabet characters, the last padded with one or two = |
| Base64.DecodedBytes | internal/webhooksecret/secret.go:23-30 | every byte of the key is eight of the 24 bits of its group, and how many bytes there are |
| Base64.BreaksAreSkipped | internal/webhooksecret/secret.go:23-24 | line breaks are skipped one by one, wherever they are |
| Base64.EncodeThenDecode | internal/webhooksecret/secret.go:23-30 | decoding the standard encoding returns the bytes |
| Base64.DecodeThenEncodeIff | internal/webhooksecret/secret.go:23-30 | re-encoding a decoded text gives it back if and only if its unused bits are zero |
| Base64.CanonicalTextIff | internal/webhooksecret/secret.go:23-30 | a decodable text is canonical if and only if it has no line breaks and zero unused bits |
| Bytes.Utf8CharSpells | internal/webhooksecret/secret.go:32-32 | the bytes of a character spell its code point (section 3 of RFC 3629) |
| Bytes.Utf8Injective | internal/webhooksecret/secret.go:32-32 | the bytes of a text determine it |

## Left out

- ListPending: a run has finitely many answered requests, after which the next one fails; a backlog that grows without end therefore appears as a failed listing of unbounded length.
- WidensEverywhereIff: speaks of every schema object the script keeps; a value lost inside a sub-schema counts as lost even where another keyword of the root excludes it anyway.
- WidensEverywhereIffNormal: leaves out enum members that hold a type list around a list, where a rewritten member can stand in for an accepted one; WidensEverywhereIff covers them.
- PreservesEverywhereIff: speaks of every schema object the script keeps, like WidensEverywhereIff.
- ConvertDocument: excludes type lists around a list, because a node reached twice is rewritten twice, and by StepsTwice that makes a difference exactly for those; cyclic YAML is excluded, on which the script does not terminate; the order of keys is not modelled.
- ConvertInPlace: excludes type lists around a list, for the same reason.
- ConvertDictionary: excludes type lists around a list, for the same reason.
- ConvertItems: excludes type lists around a list, for the same reason.
- Origins: lower-casing, IPv6 address syntax and the decoding of hosts with percent signs are library parameters, of which only the laws in `Library` are used; texts are sequences of code points, so strings that are not valid UTF-8 are not covered.
- PollAndCrash: the crash falls between two announcements; one inside the fan-out to operators counts as tried, and one inside Save leaves the old or the new file by the atomicity of rename.
- ValidateConsent: whether a string is an absolute http(s) URL is a parameter.
- `$ref`, `oneOf`, `not`, `additionalProperties` and numeric keywords have no meaning in the schema semantics; the conversion is not monotone through `not` and `oneOf`.
- `main` of the projection script: the version string and `info.summary`.
- Watch: the ticks are given as a finite sequence; one bot object records the messages attempted across restarts.
- Telegram, HTTP, logging, timers, JSON encoding of the state file and its permissions; a state file that cannot be read or parsed stops the process before any step.
- Callback buttons, `/pending`, `/invite` and the request card: string formatting.
- Error messages carry no details; only their kind is modelled.
- The remaining config documents (password policy, features, public metadata, registration, providers): field-by-field range checks.
- The flow engine, OIDC, federation, invites, webhooks delivery, account deletion and the web client.
