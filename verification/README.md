# Verified model of the SAML toolkit

A Dafny model of the parts of a SAML 2.0 toolkit (service provider, identity provider and a proxy that
combines both) whose behaviour is decided by its own code: the calendar and timestamp codec, the replay
cache and the protocols that rest on it, the structural schema walker, the proxy relay with its deadlines,
and the front-channel logout chain. `dafny verify dfyconfig.toml` checks the whole project.

| file | models |
|---|---|
| `CheckedInt`, `Instants`, `Text`, `Wrappers` | Rust `i64` arithmetic with truncating division, `SystemTime` and `Duration` as nanoseconds, `str::parse`, `split`, `find`, zero padding |
| `Calendar` | `days_from_civil` and `civil_from_days`, and the month-by-month calendar they refine |
| `DateTime`, `DateTimeTheorems` | the `xs:dateTime` reader and writer, the documented grammar, printing and reading back |
| `DateTimeGrammar`, `OffsetBytes` | exactly which texts are accepted and as what; the offset code over UTF-8 bytes |
| `Replay` | the in-memory replay cache as a class, and whole histories of calls on it |
| `Ordering` | sort, dedup and adjacent-duplicate checks, and what comparing their results means |
| `AuthnContext` | class references, their URIs, and the comparator of section 3.3.2.2.1 of SAML 2.0 Core |
| `Schema` | the shape walker and the grammar it decides |
| `Saml` | the values the roles exchange |
| `SignaturePositions` | where signatures may stand in a response |
| `ResponseValidation`, `ServiceProvider` | validation of an authenticated response, correlation with the login, replay reservation, pinned artifact services |
| `IdentityProvider` | the issuance checks and the consumption of ArtifactResolve messages |
| `ServiceProviderTheorems`, `IdentityProviderTheorems`, `ProxyConditions` | exactly when each operation succeeds, with what, and that its refusals say what is wrong |
| `Proxy`, `ProxyTheorems` | bounce, consume and relay; callback order, completeness of the preflight, deadlines |
| `SingleUse`, `OneLogin` | runs of many requests on one replay cache |
| `Samples` | one login in concrete values, for the lemmas that show a case occurs |
| `LogoutChain` | the front-channel logout chain as a class and its runs |
| `Pseudonym` | the framing of the pseudonym MAC input |

Conventions. A method that changes state is proved against a function of the old state
(`Replay.Step`, `LogoutChain.AdvanceStep`), and what the code promises is proved about that function and
about sequences of its steps. A `Plan…` function is everything an operation decides before it touches the
cache; the reservation is one atomic `Step`. Concurrent callers of the cache are an interleaving of such
steps. Signature verification, XML parsing, sealing, NameID transforms and attribute release are function
values the theorems quantify over.

Where the code and its comments part, the model follows the code:

- `parse_int` reads a sign, so an offset field such as `+-1:00` is accepted although the comment asks for
  a sign and two digits (`AcceptedTexts` gives every accepted text, `SignedShiftIsRead` these).
- The writer's comment says that re-emitting a read value keeps the wire form; it does, except for a
  fraction below one millisecond (`ReprintIsStable` gives the exact condition).
- The comment on the `Conditions` shape says that order is tolerated; the walker refuses listed children
  out of slot order even though their namespace is a wildcard (`ConditionsAcceptedExactly`,
  `ConditionsOrderMatters`).
- The logout chain promises outcomes parallel to its targets; they are, exactly when no advance consumes a
  response while the next target's logout cannot be started (`OutcomesParallelTargetsIffNoFailure`,
  `FailedStartRecordsTwice`).
- A one-time-use assertion is called single use, and the proxy's transaction entry is said to make it so by
  itself. Under one clock skew it is never redeemed twice directly and never twice in one transaction, but
  the entries of a direct and a proxied login have different keys: one response presented both ways is
  redeemed both times (`RedeemedTwiceInTwoWays`, `RedeemedTwiceExactly`, `DirectAndProxiedBothRedeem`).
  A later direct login with a larger skew can redeem it again too (`SecondAcceptanceNeedsMoreSkew`,
  `WiderSkewRedeemsTwice`).
- The overflow branch of `replay_expires_at` is described as unreachable after validation; `OverflowExactly`
  says when it is taken and `OverflowIsReached` shows a login that takes it.

## Model

| member | source | states |
|---|---|---|
| CheckedInt.CorrectedTruncationIsFloor | src/time.rs:308 | the `era_base` correction turns Rust's truncating division into floor division, for every dividend and positive divisor |
| Calendar.DaysFromCivilIsCalendarDay | src/time.rs:297-330 | `days_from_civil` answers for exactly the dates that exist, with the day number of a calendar that counts month by month and year by year; no year within 2^52 of zero overflows a checked step |
| Calendar.CivilRoundTrip | src/time.rs:297-396 | every valid date with an `i32` year, negative ones included, comes back from its day number |
| Calendar.DayRoundTrip | src/time.rs:339-396 | whatever `civil_from_days` returns is a valid date that maps back to the same day number |
| Calendar.CivilFromDaysDomain | src/time.rs:339-396 | `civil_from_days` succeeds on exactly the days of the `i32` years |
| Calendar.NextDateIsNextDay | src/time.rs:398-415 | the next calendar date is one day later, across months, leap years and 1970 |
| Calendar.CalendarDayIsStrictlyIncreasing | src/time.rs:297-330 | day numbers order dates exactly as (year, month, day) does, so no two dates share one |
| DateTime.ParseFractionToNanos | src/time.rs:209-231 | the loop over the nine-byte buffer yields the value of the first nine digits, zero-padded, and refuses an empty or non-digit fraction |
| DateTimeTheorems.FractionIsFloor | src/time.rs:209-231 | for a digit string of any length the result is the floor of the decimal fraction in nanoseconds |
| DateTimeTheorems.StampParses | src/time.rs:21-156 | every timestamp of the documented grammar is read with its civil meaning: leap second clamped to 59, offset subtracted, fraction floored, before 1970 refused |
| DateTimeTheorems.PrintThenParse | src/time.rs:169-196 | printing fails exactly before 1970 and past the `i32` years; what is printed reads back as the instant truncated to milliseconds through year 9999 and never after |
| DateTimeTheorems.ReprintIsStable | src/time.rs:187-195 | reprinting what was read gives the same text exactly unless the fraction of a second is positive and below a millisecond |
| DateTimeTheorems.AcceptedExactly | src/time.rs:21-156 | a text is accepted exactly when the reader's pieces read, the date exists and the result is not before 1970: no checked arithmetic step can fail |
| DateTimeGrammar.AcceptedTexts | src/time.rs:21-156 | a text is accepted as an instant exactly when, trimmed, it spells fields that stand and that mean this instant: numbers with an optional sign, a nonempty digit fraction worth its floor to nanoseconds, and no mark, `Z`, or a shift of two two-character numbers |
| DateTimeGrammar.WrittenIsRead | src/time.rs:21-156 | every spelling of fields that stand is read as civil seconds, a leap second as the 59th, less the shift, plus the floor of the fraction; refused exactly before 1970 |
| DateTimeGrammar.ReadWasWritten | src/time.rs:21-156 | whatever the reader takes apart is such a spelling of the fields it takes |
| DateTimeGrammar.MarkSplits | src/time.rs:234-291 | behind any clock that reads the offset is split off exactly as its mark says, and lies within 53940 seconds |
| DateTimeTheorems.OffsetIsBounded | src/time.rs:234-291 | an accepted offset lies within 14:59 of UTC although signed hours and minutes are read |
| DateTimeTheorems.OffsetFieldReadings | src/time.rs:200-207 | exactly which two-character offset fields `parse::<i64>` reads, and as what |
| DateTimeGrammar.SignedShiftIsRead | src/time.rs:232-291 | behind any documented time a shift is read with a sign of its own in front of either field, in every combination |
| DateTimeGrammar.SignedShiftWitness | src/time.rs:234-291 | a concrete text outside the documented grammar and the instant it is read as |
| DateTimeTheorems.AcceptedTextIsAscii | src/time.rs:21-156 | nothing outside ASCII is accepted between the trimmed ends |
| OffsetBytes.BytesAgreeWithCharacters | src/time.rs:234-291 | slicing the UTF-8 bytes, as the code does, and slicing the characters agree on every text for which either leaves a time of day that reads |
| Replay.InMemoryReplayCache.constructor | src/replay.rs:178-184 | a new cache is empty and holds its capacity |
| Replay.InMemoryReplayCache.HasConflict | src/replay.rs:263-276 | the growing `pending` set finds exactly a repeated key in the batch or a stored key |
| Replay.InMemoryReplayCache.InsertAll | src/replay.rs:287-289 | the insertion loop stores the whole batch over what was there |
| Replay.InMemoryReplayCache.CheckAndInsert | src/replay.rs:246-291 | the call is one `Step`: its new contents and its verdict, and it keeps the capacity bound |
| Replay.StepExactly | src/replay.rs:245-289 | entry by entry: stored after a call is what was stored and live plus, on acceptance only, the batch; a replay is reported exactly when the batch has fewer keys than entries or one is live, full exactly when only room is missing |
| Replay.StepKeepsCapacity | src/replay.rs:278-289 | sizes add up exactly per verdict and never exceed the capacity |
| Replay.StepKeepsLive | src/replay.rs:255-259 | no call drops a live entry or changes its expiry, whatever its verdict |
| Replay.StepStores | src/replay.rs:261-289 | an accepting call stores each of its entries, none of whose keys was live |
| Replay.ReachableWithinCapacity | src/replay.rs:278-285 | no state reachable from the empty cache by any history exceeds the capacity |
| Replay.StoredExactly | src/replay.rs:245-289 | under any clock, an entry is stored after a history exactly when some accepted call reserved it and no later call came at or past its expiry |
| Replay.VerdictExactly | src/replay.rs:245-289 | the verdict of every call of every history: a replay exactly when the batch repeats a key or names one an earlier accepted call still holds, full exactly when only room is missing, fresh otherwise |
| Replay.ReservationHolds | src/replay.rs:245-289 | a reservation stays with its own expiry until some call comes at or past that expiry |
| Replay.TwiceAcceptedIsExpiredBetween | src/replay.rs:245-289 | under any clock, two acceptances of one key have a call between them, or the second itself, at or past the first one's expiry |
| Replay.OncePerLifetime | src/replay.rs:245-289 | with a nondecreasing clock a key is accepted at most once before its expiry, in any interleaving |
| Replay.BackwardsClockForgets | src/replay.rs:255-259 | for every key and expiry there is a history with a clock running backwards that accepts the key twice before its expiry |
| Ordering.SortedDedupEqualIffSameSet | src/idp.rs:1545-1553 | equality after sort and dedup is equality as sets |
| Ordering.AdjacentCheckIsPairwiseCheck | src/sp.rs:690-700 | the adjacent check after sorting finds a duplicate exactly when two elements anywhere share a key |
| Ordering.DistinctKeysSortOneWay | src/sp.rs:690-701 | with distinct keys the sorted list does not depend on the given order |
| AuthnContext.Evaluate | src/authn_context.rs:201-272 | the loops over strengths, minimum and maximum reach the quantified verdict: exactly one, at least some, at most some, above every; unrankable or empty is not comparable |
| AuthnContext.StrengthIsTheLadder | src/authn_context.rs:122-151 | the standard classes stand on the documented nine-rung ladder, custom ones nowhere, and a class is at least as strong as another exactly when its rung is not below the other's |
| AuthnContext.BetterComplementsMaximum | src/authn_context.rs:257-266 | `better` and `maximum` are exact complements wherever they are decided, and undecided together |
| AuthnContext.VerdictIgnoresOrderAndDuplicates | src/authn_context.rs:201-272 | the verdict depends on the set of requested classes only |
| AuthnContext.CustomIsNeverRanked | src/authn_context.rs:138-151 | one `Custom` class, even one that spells a standard URI, makes every ordered comparison not comparable; `exact` still matches it by text |
| AuthnContext.UriOfParsed | src/authn_context.rs:81-114 | parsing a URI and writing it back is the identity on every string |
| AuthnContext.ClassOfUri | src/authn_context.rs:51-114 | writing a class and parsing it back is the identity exactly unless it is a `Custom` that spells a standard URI |
| Schema.ValidateAgainstShape | src/schema.rs:1300-1327 | the recursive walker accepts exactly the elements of the declarative grammar |
| Schema.WalkSequence | src/schema.rs:1343-1399 | the cursor-and-counters loop decides: every child known, matched slots nondecreasing, each slot often enough, every filled slot well formed |
| Schema.CheckMinimums | src/schema.rs:1389-1397 | the saturating `u32` counter never changes the verdict of the minimum check |
| Schema.WalkChoice | src/schema.rs:1405-1440 | the choice loop decides its language, the empty slot list included |
| Schema.OrderIsSegmentation | src/schema.rs:1329-1342 | nondecreasing slots is the same as consecutive per-slot segments with wildcard children interspersed |
| Schema.ConditionsAcceptedExactly | src/schema.rs:339-390 | which Conditions elements conform: SAML children only, listed ones in slot order and well formed |
| Schema.ConditionsOrderMatters | src/schema.rs:345-349 | two elements with the same children in different order, one accepted and one refused |
| SignaturePositions.WalkDecidesPlacement | src/response/validate.rs:345-379 | the recursive walk accepts exactly the trees in which every signature outside another signature is a direct child of one of the three allowed elements |
| ResponseValidation.ConfirmationFoundExactly | src/response/validate.rs:582-718 | a confirmation is found exactly when some bearer, or usable holder-of-key, one confirms this SP and request now; a confirming bearer one is preferred |
| ResponseValidation.AssertionAcceptedExactly | src/response/validate.rs:198-330 | an authenticated assertion is accepted exactly when its issuer, window, audiences, confirmation, class and session all hold |
| ResponseValidation.ResponseAcceptedExactly | src/response/validate.rs:67-330 | the exact condition, without order or error cases, under which a response is accepted |
| ResponseValidation.AcceptedResponseIsCurrent | src/response/validate.rs:67-330 | what an accepted identity may be relied on for: its issuer, request, certificates, and all three deadlines still ahead by the clock less the skew |
| ResponseValidation.IdentityDescribesAssertion | src/response/validate.rs:280-330 | an identity carries the assertion's subject, attributes, id, deadline and one-time-use mark, its first statement, and the deadline of a confirmation that confirms |
| ServiceProvider.ConsumeResponseWithReplay | src/sp.rs:915-1059 | the result and the cache after the call: untouched on every validation failure, one `Step` with exactly one entry otherwise, success exactly on a fresh verdict |
| ServiceProviderTheorems.LoginAcceptedExactly | src/sp.rs:852-1015 | tracked or not, a login is accepted exactly when destination, IdP, binding and pinned certificates correlate, the response answers its request as configured, and the assertion authenticated with the candidates and both signature demands admits it: window, audience, proof of subject, requested class, session, name format and qualifier; it yields the identity that assertion describes |
| ServiceProviderTheorems.RefusalIsTrue | src/sp.rs:852-1015 | unless the XML layer fails, a refused login names one of the listed errors, and what the error says is wrong, is |
| ServiceProviderTheorems.PlansExactly | src/sp.rs:1032-1056 | mode by mode: when a validated login goes on to the cache, when it is refused before it, and which one entry it asks for |
| ServiceProvider.AcceptedResponseIsCorrelated | src/sp.rs:852-1015 | a solicited response is accepted only from the tracked issuer, endpoint, binding, request and format, authenticated with certificates both current and pinned, of which there is one |
| ServiceProvider.ReservationOutlivesValidity | src/sp.rs:1191-1201 | the tombstone of an accepted assertion is still to come at the login and the same login is refused at every instant from it on |
| ServiceProvider.OverflowExactly | src/sp.rs:1180-1201 | after validation the expiry overflow branch is taken exactly when a reservation is due and the skew carries the expiry past the last instant, the clock staying short of it |
| Samples.OverflowIsReached | src/sp.rs:1187-1201 | a login that validates and takes that branch |
| ServiceProvider.PinnedExactly | src/sp.rs:674-702 | pinning succeeds exactly for a nonempty list of indexed SOAP services with pairwise distinct indices |
| ServiceProvider.PinnedLookupIsExact | src/sp.rs:1094-1100 | in a pinned list an index finds exactly the one offered service that carries it |
| ServiceProvider.FindServiceIsFirst | src/idp.rs:1149-1153 | in any list of services an index finds the first one that carries it, or none exactly if none does |
| ServiceProvider.PinningIgnoresMetadataOrder | src/sp.rs:674-702 | reordered metadata pins the same list, or fails alike |
| IdentityProvider.ArtifactResolutionAcceptedExactly | src/idp.rs:247-274 | the constructor's index check accepts exactly indexed SOAP services with distinct indices and a certificate to sign with |
| IdentityProvider.KeyMaterialComparesAsSets | src/idp.rs:1535-1554 | the key-material check passes exactly when both lists have the same members |
| IdentityProvider.ConsumeArtifactResolve | src/idp.rs:1133-1281 | every check failure leaves the cache untouched; otherwise the result is the verdict of one `Step` |
| IdentityProviderTheorems.ResolveAnsweredExactly | src/idp.rs:1133-1271 | a message reaches the cache exactly when it is routed here by the artifact, comes from the transaction's SP for its artifact and this destination, is fresh under a positive skew with a datable tombstone, and its signature verifies under current and pinned certificates, or is absent where none is demanded; it reserves the SP's request id |
| IdentityProviderTheorems.ResolveRefusalIsTrue | src/idp.rs:1142-1271 | a refused message names one of the listed errors, and what the error says is wrong, is |
| IdentityProviderTheorems.PreparesExactly | src/idp.rs:754-820 | a response is prepared exactly when the request belongs to the SP, its keys match where they matter, class, format, qualifier and instants stand and an artifact can be resolved; what is prepared is the input, the validated endpoint and the right service |
| IdentityProviderTheorems.IssuesExactly | src/idp.rs:745-823 | direct issuance refuses an artifact and whatever is not issuable; anything else is what the XML layer makes of the prepared response |
| IdentityProviderTheorems.WritesExactly | src/time.rs:169-181 | an instant can be written exactly from 1970 to the end of the last `i32` year |
| IdentityProviderTheorems.InstantsWriteExactly | src/response/issue.rs:417-452 | exactly which clocks and lifetimes can be written, and each field is the text of its own instant |
| IdentityProvider.TombstoneCoversFreshness | src/idp.rs:1191-1271 | an accepted message lies in the closed freshness window, and its tombstone outlasts that window by one millisecond |
| IdentityProvider.ReplayIdIsInjective | src/idp.rs:1272 | the NUL-joined replay id determines entity id and request id when either side is free of NUL |
| IdentityProvider.ReplayIdCollidesOnNul | src/idp.rs:1272 | without that, two different pairs share a key |
| Proxy.ConsumeUpstreamResponse | src/proxy.rs:823-889 | the flow and the cache after the call: exactly the transaction entry is reserved, in the same call that yields the flow, and nothing on any failure before it |
| ProxyConditions.UpstreamAcceptedExactly | src/proxy.rs:823-963 | an upstream response yields a flow, its transaction unused, exactly when the token decodes to a living context of at most ten minutes that shares a certificate with the IdP, and its login validates against the sealed tracker; the flow is this proxy's and carries that context and identity |
| Proxy.Relay | src/proxy.rs:975-1255 | the relay run against callbacks that log: what they log, in order, and what is returned are those of the function the theorems are about |
| ProxyConditions.RelaysExactly | src/proxy.rs:975-1201 | a callback runs exactly when the flow is this proxy's, for its SP, with the sealed keys where they matter, at a registered POST endpoint, with a class that meets the sealed requirement, living deadlines, writable instants and a supported format; release runs exactly when the transform then returns a fitting NameID |
| ProxyConditions.RelayRefusalIsTrue | src/proxy.rs:987-1181 | a relay refused before any callback names one of the listed errors, and what the error says is wrong, is |
| ProxyTheorems.BounceSealsTheDownstreamRequest | src/proxy.rs:766-795 | whatever the propagation flags, the sealed context records what the downstream required, lives ten minutes and decodes as it was sealed |
| ProxyConditions.BouncesExactly | src/proxy.rs:691-795 | whatever starts the login: the login asked for has each policy of the downstream request where its switch is set and nothing where it is not, the payload seals every field of the request, the returned tracker and the certificates as an ordered set, and the bounce succeeds exactly when all this can be done |
| ProxyTheorems.CallbacksFollowTheChecks | src/proxy.rs:975-1201 | callbacks run in their order, each only after every check before it passed, and the first failure is what is returned |
| ProxyTheorems.PreflightIsComplete | src/proxy.rs:1203-1255 | once both callbacks have run no check repeated by reissue or issuance can fail: the result is what the XML layer makes of a response at the registered endpoint, to the sealed request, with the upstream instant, the released attributes and the capped deadlines |
| ProxyTheorems.RelayNeverDowngrades | src/proxy.rs:1074-1114 | the advertised class meets what the downstream required at the bounce and claims nothing the upstream did not attest |
| ProxyTheorems.RelayDeadlinesAreCapped | src/proxy.rs:1138-1159 | session, assertion and confirmation deadlines lie between now and every upstream deadline, and are not cut shorter than that and the asked lifetimes require |
| ProxyTheorems.WireNeverLater | src/time.rs:189-194 | an emitted instant reads back never later and less than a millisecond earlier |
| ProxyTheorems.DeadlinesNeverGrow | src/proxy.rs:1129-1166 | along a chain of any number of proxies no emitted deadline reads later than the first upstream one |
| SingleUse.SameKeyTwice | src/replay.rs:245-289 | over a run of logins, proxied logins and artifact resolutions on one cache, two successes with one key are separated by the first one's expiry |
| SingleUse.SucceedsExactly | src/replay.rs:245-289 | over every run from the empty cache an event that reserves succeeds if and only if no earlier success still holds its key and the live reservations leave room |
| SingleUse.ReservationInTheSameCall | src/sp.rs:1017-1056 | a direct login with a one-time-use assertion succeeds only with the assertion's reservation in the same call, whatever the mode |
| SingleUse.OneTimeUseReserves | src/sp.rs:1017-1056 | a one-time-use login reserves on either way in, its assertion directly and its transaction by proxy |
| SingleUse.SecondAcceptanceNeedsMoreSkew | src/sp.rs:1017-1056 | over any run with mixed modes a second success of reserving direct logins with one assertion uses a strictly larger skew |
| SingleUse.OneTimeUseSucceedsOnce | src/sp.rs:1017-1056 | among direct logins, with one skew and any mode per call, a one-time-use assertion succeeds at most once; under `All` every assertion does |
| SingleUse.WiderSkewRedeemsTwice | src/sp.rs:1191-1201 | for every two different skews there is a login that succeeds under the narrower and again under the wider |
| SingleUse.RedeemedTwiceInTwoWays | src/sp.rs:903-1056 | over any run of direct and proxied logins, a one-time-use assertion redeemed twice under one skew was redeemed in two ways: never twice directly, never twice in one transaction |
| SingleUse.RedeemedTwiceExactly | src/sp.rs:1039-1056 | after a first success a second redemption that no other reservation blocks succeeds if and only if it takes another way in |
| SingleUse.ResponseAnswersRequest | src/response/validate.rs:111-121 | on either way in an accepted response answers the request the login is bound to |
| SingleUse.ResponseRedeemedTwiceIsMixed | src/sp.rs:903-1056 | one response redeemed twice under one skew, each upstream request being sealed once, was redeemed once directly and once by proxy for the same request |
| SingleUse.DirectAndProxiedBothRedeem | src/sp.rs:1039-1056 | that case occurs: one response presented directly and by proxy at one instant is redeemed both times |
| SingleUse.ArtifactResolveSucceedsOnce | src/idp.rs:1191-1278 | over any run an ArtifactResolve message is answered at most once, as long as the skew does not grow by a millisecond |
| SingleUse.TransactionSucceedsOnce | src/proxy.rs:823-889 | over any run a sealed context yields at most one upstream flow |
| OneLogin.InvariantHolds | src/proxy.rs:823-991 | in every reachable world a transaction has at most one use, and while its context could be consumed its tombstone is in the cache |
| OneLogin.OneResponsePerTransaction | src/proxy.rs:823-1255 | over every run of any number of proxies each sealed transaction has one flow alive or one response issued, never both, never more |
| OneLogin.ConsumeThenRelayIssues | src/proxy.rs:823-1255 | the bound of one is reached by a legal run: a validated transaction whose relay is accepted is issued once and leaves no flow |
| OneLogin.SampleIssues | src/proxy.rs:823-1255 | such a run in concrete values |
| OneLogin.ForeignRelayIssuesNothing | src/proxy.rs:979-989 | a relay by another instance issues nothing and uses the flow up |
| LogoutChain.FrontChannelChain.Begin | src/proxy.rs:1620-1650 | the chain starts at its first target, is done at once without targets, and fails as the first logout does |
| LogoutChain.FrontChannelChain.Advance | src/proxy.rs:1654-1732 | the new state, the recorded outcomes and the result of one advance |
| LogoutChain.AdvanceMoves | src/proxy.rs:1654-1732 | the position moves exactly on success, by one target; an outcome is recorded exactly when a response was consumed, even if the call then fails |
| LogoutChain.Conservation | src/proxy.rs:1620-1732 | over any run: recorded outcomes are targets passed plus failures to start a successor, the index stays in range, done is all targets passed |
| LogoutChain.OutcomesFollowTargets | src/proxy.rs:1683-1731 | outcomes are recorded for the targets in order, none skipped |
| LogoutChain.StateShowsStartedLogout | src/proxy.rs:1641-1730 | over any run the dispatch on show and the tracker kept are those of the logout started for the very target that is next |
| LogoutChain.OutcomesAnswerStartedLogouts | src/proxy.rs:1685-1730 | over any run every recorded outcome is what consuming its call's response for its target against the logout started for that target comes to |
| LogoutChain.OutcomesParallelTargetsIffNoFailure | src/proxy.rs:1683-1708 | at the end there is one outcome per target in its place exactly when no successor failed to start; each failure adds one outcome |
| LogoutChain.FailedStartRecordsTwice | src/proxy.rs:1698-1725 | the failure occurs: two targets, the second not startable at first, end with three outcomes, the first target's twice |
| Pseudonym.FeedMac | src/proxy.rs:1445-1456 | the loop feeds the tag and three length-prefixed fields, and refuses a length that does not fit eight bytes |
| Pseudonym.UnframeFramed | src/proxy.rs:1446-1456 | framed fields of any number read back as the fields |
| Pseudonym.MacInputIsInjective | src/proxy.rs:1445-1456 | the MAC input determines the upstream IdP, the subject and the downstream SP |

## Left out

- XML parsing and emission, canonicalization, XML-DSig, XML-Enc and certificates: `XmlLayer`, `ResolveXml` and `Deliver` are arbitrary function values; only the positions of signatures are checked on a tree.
- ResponseRedeemedTwiceIsMixed: assumes that each upstream request id is sealed in one transaction, as a bounce does with a random id.
- OneResponsePerTransaction: assumes that one transaction id is always sealed with one expiry (an honest codec and unique random ids); AEAD, base64 and random bytes are not modelled, and the transaction id stands for its encoded text.
- MacInputIsInjective: is about the bytes fed to HMAC-SHA256; that distinct inputs give distinct digests is a cryptographic assumption.
- DeadlinesNeverGrow: assumes that each proxy validated the assertion the previous one emitted, deadline by deadline.
- CheckAndInsert: does not model a poisoned mutex; concurrency is an interleaving of atomic calls. Caches other than the in-memory one are not modelled.
- Error message texts and the `reason` strings of the schema walker: errors carry their kind only, and a walker verdict is a Boolean.
- `SystemTime` is an `i64` count of seconds with nanoseconds, as on Unix; the 100 ns ticks of Windows are not modelled.
- The library's `sort_by_key`, `sort_unstable` and `dedup` are functions on sequences; their work in place on local vectors is not modelled.
- The full catalogue of SAML shapes: the walker is proved for every finite shape and instantiated for Conditions.
- Identity: session index and the fingerprint of the verifying certificate are carried through unchanged by the code and are not modelled.
- The metadata emission, HTTP and SOAP clients, Redirect and POST encoding, and the network half of artifact consumption: I/O.
- Logout request and response validation: the chain sees a logout start that may fail and an arbitrary outcome per response.
- Unsolicited and error responses, the stock release policies and the stock NameID transforms other than the pseudonym framing: short case lists.
