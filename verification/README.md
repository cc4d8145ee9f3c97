# Macaroon bakery: a verified model

macaroon-bakery is an authorization toolkit: services mint macaroons that carry operations, add first-party
and third-party caveats to them, and decide requests from the macaroons that clients present. This project
models the state machines, decision procedures and codecs under its HTTP and cryptographic surface, and proves
what they promise: over whole runs, in every interleaving, for every iteration order of Go's maps, and for
every input.

| file | models |
|---|---|
| `RootKeyStore.dfy` | keys, policies, the two cache generations, the current keys, the stores and the backing (classes) |
| `RootKeyRuns.dfy` | any number of `Get` and `RootKey` calls interleaved at their critical sections, with time passing, expired keys dropped, foreign inserts and restarts: availability, cache refinement and generation rate |
| `RequestBody.dfy` | the reference-counted request body: the interleaved protocol of client and HTTP transport, and the objects |
| `Checker.dfy` | the authorization decision as functions on values, with soundness, exactness and independence of map order |
| `CallLog.dfy` | the calls to the authorizer behind a decision, from which its kind, caveats and report follow |
| `MapOrder.dfy` | exactly when the kind of decision depends on the iteration order of a map |
| `AuthChecker.dfy` | the objects that make the decision step by step, proved to refine `Checker` |
| `IdentChecker.dfy` | the identity-aware checker on top of it |
| `Squasher.dfy` | the rewriting of first-party condition lists |
| `MacaroonCaveats.dfy` | caveat ids and external caveat payloads |
| `DischargeSlice.dfy` | the gathering of discharges |
| `Uvarints.dfy`, `CaveatCodec.dfy` | variable-length integers and the version 2 and 3 caveat payloads |
| `Namespaces.dfy` | namespaces and their text form |
| `Base64.dfy`, `Oven.dfy` | canonical operations and macaroon ids |
| `RelativeURL.dfy` | relative paths against reference resolution (sections 5.2.3 and 5.2.4 of RFC 3986) |
| `Declared.dfy` | declared attributes and the need-declared protocol |
| `Basics.dfy`, `Macaroons.dfy`, `Ordering.dfy`, `Text.dfy` | bytes and outcomes, versions and caveats, Go's sorting, Go's string functions |

What the program takes from elsewhere is a parameter: clock readings (all readings inside one critical section
are one instant; the reading for the bounds of a search of the backing, which no lock protects, is a step of its own),
random bytes and nonces (a generated key id is assumed to differ from every id ever inserted, dropped ones included), the macaroon verifier's verdicts, the answers of authorizers, identity
clients and third parties, and the order in which a Go map is iterated over. Sealed boxes, UTF-8 and protobuf are
functions of which only the inverse law is assumed (and for boxes the lengths), as a `requires` of the lemmas that
need it; of the parser and formatter of times nothing is assumed.
Instants and durations are mathematical integers; the 64-bit sum in the payload decoder is modelled with its
wrap-around. Strings are sequences of Unicode scalar values, whose order agrees with the byte order of UTF-8.

## Where the code and its documentation differ

The model follows the code, and each difference is a theorem.

- A key stays available for the policy's expiry duration exactly for policies whose interval is not negative (or
  whose duration is negative, when nothing is promised): `IssuedKeyIsAvailable` and, for every other policy,
  `NegativeIntervalBreaksAvailability`. A freshly generated key is not checked against its policy (lines 312-327
  of `bakery/dbrootkeystore/rootkey.go`), and `FreshKeyMeetsPolicy` says when it would pass.
- Keys of one policy are more than the interval apart in sequential runs when the expiry duration is not negative
  or the interval is (`SequentialKeysAreApart`); every other policy has a run in which they are not
  (`IrregularPolicyBreaksRate`).
- The caveat-id loop is said to run no more often than there are third-party caveats; it runs once more exactly when
  as many candidates from the first on are all taken (`NewCaveatId`).
- `RelativeURLPath` is said to return a relative path that leads to the target. It does exactly when the target
  does not begin with the base's directory followed by another slash (`RelativeInvertsResolution`,
  `EmptySegmentExample`).
- Declared attributes under a standard namespace with a prefix are never inferred, since the code leaves out the
  colon (`DeclaredIsSeenOnlyWithoutPrefix`).
- Whether `Allow` succeeds at once or asks for a discharge can depend on the iteration order of a map. For an
  authorizer that treats the queried operations one by one, such as `AuthorizerFunc` (`OneByOneIsValid`), it does
  exactly when something is needed, all of it can be granted, some operation returns caveats when asked about what is
  needed at first, and yet no caveats need be returned: asking, as long as that helps, only operations that return none
  for what is still needed leaves nothing, or leaves what neither any operation nor NoOp returns caveats for
  (`DecisionIsOrderIndependentIff`; `CaveatsDependOnOrder` is a small case). What is left that way does not depend on
  the choices (`QuietVisitsEndAlike`). Whether `Allow` denies does not depend on the order either
  (`DenialIsOrderIndependent`).
- The bounds of a search of the backing are computed before the backing is queried. Keys inserted before the bounds
  were computed keep the interval in every interleaving (`SeenKeysAreApart`); one that is inserted in between does not
  stop another from being generated at the same instant (`LateKeysMayBeClose`).
- The identity checker looks up the macaroon of LoginOp after every allowed login. It is there exactly when a macaroon
  granted LoginOp (`LoginIndexIsPresentIff`), always so in a context without an identity, and not in a context that
  carries one whose authorizer allows LoginOp (`LoginWithoutMacaroon`).
- Declarations are inferred from caveats without a location and checked for those without a verification id
  (`SliceDeclarationsPass`, `SliceConsistentOrFail`, `UnlocatedThirdPartyConflicts`).
- Squashing rewrites the earliest expiry through the time package's formatter, whose output its parser need not
  accept: `9999-12-31T23:59:59-01:00` is the year 10000 in UTC, which is written with five digits. The meaning of the
  conditions is kept exactly when the rewritten expiry is read as the same instant or is hidden by another condition
  (`SquashingPreservesMeaning`, `UnreadableExpiryIsLost`).
- The decoder of caveat payloads panics exactly when a payload opens to a secret part in which a length and the size of
  its encoding overflow 64 bits (`DecodePanics`), and there are such payloads (`SealedOverflowPanics`).
- The decoder of macaroon ids panics exactly for an empty id and for a version 2 id without a whole UUID
  (`Oven.DecodePanics`).

## Model

| member | source | states |
|---|---|---|
| RootKeyRuns.IssuedKeyIsAvailable | bakery/dbrootkeystore/rootkey.go:215-381 | In every run of interleaved calls: a key returned by a RootKey call is what every Get answers up to the expiry duration after that call began, whatever the caches, negative entries, dropped keys and restarts in between, for every policy that promises it |
| RootKeyRuns.NegativeIntervalBreaksAvailability | bakery/dbrootkeystore/rootkey.go:363-381 | For every policy with a negative interval and a non-negative duration there is a run in which an issued key is not found within the duration |
| RootKeyRuns.IssuedKeyIsBounded | bakery/dbrootkeystore/rootkey.go:169-181 | In every run a returned key expires at most the expiry duration and the interval after its return and, for a non-negative interval, was created at most the interval before the call |
| RootKeyRuns.KeysHaveSource | bakery/dbrootkeystore/rootkey.go:363-381 | In every run a returned key has exactly the id and the secret that were drawn when it was generated, unless another process inserted it as it is; a key made by this process always has |
| RootKeyRuns.CacheRefinesLookup | bakery/dbrootkeystore/rootkey.go:215-258 | In every run Get answers as an expiry test over all keys ever inserted for every id but those inserted and not yet returned by a call, where it may only miss; both generations stay within max(1, maxCacheSize) |
| RootKeyRuns.QuietGetIsPlainLookup | bakery/dbrootkeystore/rootkey.go:215-258 | When only this process inserts keys and no RootKey call is in progress, Get answers exactly as a lookup without cache |
| RootKeyRuns.OnlyCallsInFlightAreUnsettled | bakery/dbrootkeystore/rootkey.go:312-327 | The ids that the cache may be wrong about belong to calls between inserting a key and returning it |
| RootKeyRuns.SeenKeysAreApart | bakery/dbrootkeystore/rootkey.go:297-336 | In every interleaving two keys of one policy are more than the interval apart when the first was inserted before the second's call read the clock for its search, though the backing was queried later and may have dropped keys in between |
| RootKeyRuns.LateKeysMayBeClose | bakery/dbrootkeystore/rootkey.go:330-336 | For every policy with a non-negative interval there is a run in which a key is inserted between computing the bounds and querying the backing, and another key is generated at the same instant |
| RootKeyRuns.SequentialKeysAreApart | bakery/dbrootkeystore/rootkey.go:297-381 | In runs without overlapping RootKey calls any two keys of a policy are more than the interval apart, though caches and current keys may have been lost |
| RootKeyRuns.KeysPerSpan | bakery/dbrootkeystore/rootkey.go:297-381 | At most span/interval + 1 keys of a policy are generated in any span of time |
| RootKeyRuns.IrregularPolicyBreaksRate | bakery/dbrootkeystore/rootkey.go:297-381 | Every policy outside that guarantee has a sequential run that generates two keys within the interval |
| RootKeyRuns.MissMeansOldKeys | bakery/dbrootkeystore/rootkey.go:330-336 | A query with bounds computed earlier that finds nothing shows that every key of the policy created by then is older than the interval |
| RootKeyRuns.StepKeepsInv | bakery/dbrootkeystore/rootkey.go:215-274 | Every step keeps the invariant: cached keys agree with the inserted ones, returned keys are never hidden by a stale negative entry before they expire, and every issued key keeps its promise |
| RootKeyRuns.RunKeepsInv | bakery/dbrootkeystore/rootkey.go:215-381 | The invariant holds along every run; time does not go back and nothing issued is forgotten |
| RootKeyRuns.RootKeyCallIsARun | bakery/dbrootkeystore/rootkey.go:297-328 | What the method Store.RootKey does is a run of the interleaved system that issues the key it returns |
| RootKeyStore.FreshKeyMeetsPolicy | bakery/dbrootkeystore/rootkey.go:363-381 | A generated key is valid under the policy it was generated for if and only if the interval is not negative |
| RootKeyStore.RecentIsKept | bakery/dbrootkeystore/rootkey.go:252-258 | Adding a key loses none of the newest generation, and the key is found without the backing |
| RootKeyStore.GetIsCached | bakery/dbrootkeystore/rootkey.go:215-228 | After a Get the same answer is found without the backing, at any later time |
| RootKeyStore.CurrentIsReused | bakery/dbrootkeystore/rootkey.go:297-361 | After a RootKey call its key is the only answer of the cache as long as it is valid for the policy |
| RootKeyStore.Backing.FindLatestKey | bakery/dbrootkeystore/rootkey.go:56-65 | Returns a most recently created key with the three conditions, or the zero key exactly when no key has them |
| RootKeyStore.Backing.InsertKey | bakery/dbrootkeystore/rootkey.go:67-69 | Inserts the key unless its id is taken, and then changes nothing |
| RootKeyStore.RootKeys.constructor | bakery/dbrootkeystore/rootkey.go:157-167 | Starts with empty caches |
| RootKeyStore.RootKeys.AddCache | bakery/dbrootkeystore/rootkey.go:252-258 | The new state of both generations; a full new generation becomes the old one |
| RootKeyStore.RootKeys.SetCurrent | bakery/dbrootkeystore/rootkey.go:262-274 | The new current keys; they are thrown away above the limit |
| RootKeyStore.RootKeys.Get0 | bakery/dbrootkeystore/rootkey.go:233-248 | Finds what the first of new generation, old generation and backing has, negative entries included, and tells whether it was in the new generation |
| RootKeyStore.RootKeys.Get | bakery/dbrootkeystore/rootkey.go:215-228 | Answers with the first key found unless it has expired, and leaves the caches as one Get step of the system does |
| RootKeyStore.Store.constructor | bakery/dbrootkeystore/rootkey.go:193-206 | A zero interval becomes the expiry duration |
| RootKeyStore.Store.Get | bakery/dbrootkeystore/rootkey.go:283-292 | Returns the secret of the unexpired key found first |
| RootKeyStore.Store.RootKeyFromCache | bakery/dbrootkeystore/rootkey.go:341-361 | Returns the current key if it is valid for the policy, else a latest valid one of the new generation, which becomes current; nothing exactly when there is none |
| RootKeyStore.Store.RootKey | bakery/dbrootkeystore/rootkey.go:297-328 | Which key is returned, from cache, backing or fresh, and the caches and backing afterwards; when nothing is found the secret drawn is returned under the id drawn, created now, expiring after duration and interval, and is in the backing; it fails only when a fresh key cannot be inserted, and then changes nothing |
| RequestBody.BodyClosedOnceWhenReleased | httpbakery/request.go:79-160 | In every interleaving the count is the client's reference plus the stoppers that have not given theirs up, and the body is closed, once, exactly when client and all stoppers have let go |
| RequestBody.BodyAccessIsExclusive | httpbakery/request.go:91-160 | In every interleaving at most one stopper lets reads through, none while the client seeks, and nobody reads or seeks a body that is closed or about to be |
| RequestBody.ReadsFromTheBeginning | httpbakery/request.go:79-149 | In every interleaving the attempt that may read has read the body without a gap, every attempt but the first from its beginning |
| RequestBody.OnlyOwnReadsMove | httpbakery/request.go:79-149 | While an attempt may read, only its own reads move the position of the body |
| RequestBody.ClosedIsFinal | httpbakery/request.go:114-160 | Once the count is zero it stays zero and no attempt, read or seek ever happens again |
| RequestBody.StoppedStaysStopped | httpbakery/request.go:136-160 | A closed stopper never lets another read through |
| RequestBody.StepKeepsInv | httpbakery/request.go:79-160 | Every step of client and transport keeps the count and the stoppers' states in agreement |
| RequestBody.RunKeepsInv | httpbakery/request.go:79-160 | So does every run |
| RequestBody.PrepareRun | httpbakery/request.go:79-110 | An uninterrupted prepare, successful or not, is a run of the protocol |
| RequestBody.ClientCloseRun | httpbakery/request.go:114-121 | An uninterrupted close is a run of the protocol |
| RequestBody.ReadRun | httpbakery/request.go:136-149 | An uninterrupted Read is a run of the protocol, and how it moves the position |
| RequestBody.CloseRun | httpbakery/request.go:151-160 | An uninterrupted Close of a stopper is a run of the protocol |
| RequestBody.NotLast | httpbakery/request.go:91-100 | Stopping the previous attempt never takes the count to zero while the client holds its reference |
| RequestBody.RetryableRequest.constructor | httpbakery/request.go:44-51 | Starts in the initial state of the protocol |
| RequestBody.RetryableRequest.Close | httpbakery/request.go:114-121 | Gives up a reference and closes the body exactly with the last one |
| RequestBody.RetryableRequest.ClientClose | httpbakery/request.go:114-121 | The client's close reaches its new state by protocol steps |
| RequestBody.RetryableRequest.StopPrevious | httpbakery/request.go:91-95 | Afterwards no stopper ever issued is open and the body is not closed |
| RequestBody.RetryableRequest.NewStopper | httpbakery/request.go:100-108 | One more reference and one more open stopper, the new one |
| RequestBody.RetryableRequest.Prepare | httpbakery/request.go:79-110 | Reaches its new state by protocol steps; fails exactly when a needed seek fails; all earlier stoppers are closed and the body is at its start for a second attempt |
| RequestBody.RetryableRequest.TransportRead | httpbakery/request.go:136-149 | The transport's Read of any stopper ever issued is a run of the protocol, one that reads only if the stopper is open |
| RequestBody.RetryableRequest.ReadIssued | httpbakery/request.go:136-149 | What a Read does to body and stoppers |
| RequestBody.RetryableRequest.TransportClose | httpbakery/request.go:151-160 | The transport's Close of any stopper ever issued is a run of the protocol and keeps the invariant; only a first Close gives up a reference and only the last of all closes the body |
| RequestBody.RetryableRequest.CloseIssued | httpbakery/request.go:151-160 | Exactly one stopper is closed, and what becomes of count and body |
| RequestBody.ReadStopper.Read | httpbakery/request.go:136-149 | End of file exactly when the stopper is closed, and then the body is left alone |
| RequestBody.ReadStopper.Close | httpbakery/request.go:151-160 | The reference is given up by the first Close only |
| Checker.AllowIsSound | bakery/checker.go:315-426 | Whatever the authorizer answers and in whatever order the map is visited: if the request is allowed, at once or after discharges, each operation is NoOp, carried by a verified macaroon whose conditions hold, or granted from such an operation or from NoOp in a query about requested operations still needed; the caveats asked for were returned for such queries; every reported macaroon verified, passed and is marked as used |
| Checker.AllowIsExactWithoutAuthorizer | bakery/checker.go:315-371 | Without an authorizer the request is allowed if and only if each operation is NoOp or directly allowed; the report names the first good macaroon of each, and exactly those are used |
| Checker.DenialIsOrderIndependent | bakery/checker.go:375-442 | For an authorizer that answers operations independently, Allow denies exactly when some operation cannot be granted at all: a condition free of the map order, despite early exit and shrinking need |
| CallLog.DecisionByCalls | bakery/checker.go:315-426 | Every decision that does not fail comes from a definite sequence of calls, and all of it follows from their answers: it denies if and only if something is still needed after them; otherwise its caveats are everything they returned, in order, and it asks for a discharge if and only if there are any; a success names for each operation the macaroon of the last call that granted it by one, else its first good one, and uses exactly the macaroons that granted something |
| CallLog.LoopCalls | bakery/checker.go:375-426 | Which calls: for each operation visited while something is needed, one for each of its good macaroons in order, about exactly what is needed then, and one for NoOp about what is needed in the end |
| CallLog.CaveatsAreReturned | bakery/checker.go:394-418 | The caveats of a sequence of calls are exactly those that some call of it returned |
| CallLog.FailureIsOfAuthorizer | bakery/checker.go:375-426 | A decision fails only when the authorizer does, in a query from a good macaroon or NoOp about what is needed |
| MapOrder.DecisionIsOrderIndependentIff | bakery/checker.go:315-426 | For an authorizer that treats queried operations one by one: the decision is of the same kind in every iteration order of the map if and only if it is not the case that something is needed, all of it can be granted, some operation returns caveats for some of it, and what is left after asking quietly for as long as that helps (the largest stuck set) is empty, or neither an operation nor NoOp returns caveats for any of it |
| MapOrder.BothOutcomes | bakery/checker.go:315-426 | In that case, and only then, one order allows the request and another asks for a discharge |
| MapOrder.OrdersExist | bakery/checker.go:315-426 | Exactly when some order allows the request, and exactly when some order asks for a discharge, by what is needed at first and by what visits without caveats leave |
| MapOrder.DecisionIs | bakery/checker.go:315-426 | The kind of decision in every order, by the visits of that order |
| MapOrder.QuietVisitsEndAlike | bakery/checker.go:379-408 | All ways of visiting without caveats for as long as it helps leave the same operations needed: the largest stuck set |
| MapOrder.RestIsStuck | bakery/checker.go:379-408 | That set is stuck, so that no operation grants any of it without caveats, and contains every other stuck set of needed operations |
| MapOrder.Reduce | bakery/checker.go:379-408 | There is such a way that visits each operation at most once |
| MapOrder.Loop | bakery/checker.go:379-408 | For every order: which operations are still needed after the loop, and that it has collected caveats exactly if some visit returned them for what was still needed then |
| MapOrder.QueryMacaroonsCaveats | bakery/checker.go:384-394 | The calls for one operation return no caveats exactly when none of its good macaroons makes the authorizer return any for a queried operation |
| MapOrder.CaveatsDependOnOrder | bakery/checker.go:375-408 | A small case in which the order matters, although the operation with caveats is needed in both orders |
| MapOrder.OneByOneIsValid | bakery/identchecker/authorizer.go:63-81 | An authorizer that calls a function for each queried operation and puts the caveats together is one that the theorems are about |
| Checker.DirectExact | bakery/checker.go:354-371 | After n operations exactly those that are NoOp or directly allowed are authorized, each recorded with the first good macaroon |
| Checker.DirectUsed | bakery/checker.go:354-371 | Exactly the first good macaroons of these operations are marked as used |
| Checker.IndirectExact | bakery/checker.go:375-426 | The operations authorized indirectly are exactly those granted from an operation visited or from NoOp |
| Checker.GrantedExact | bakery/checker.go:395-405 | The answers authorize exactly the queried positions they grant |
| Checker.UnauthedExact | bakery/checker.go:428-442 | The needed positions are exactly the unauthorized ones, in ascending order |
| Checker.FirstOkIsFirst | bakery/checker.go:362-369 | The macaroon used is the first whose conditions hold |
| AuthCheckers.RemainingIsUnauthed | bakery/checker.go:430-442 | Filtering the list of needed positions from before some grants gives exactly the positions still unauthorized |
| AuthCheckers.Compact | bakery/checker.go:431-441 | The in-place compaction keeps the unauthorized entries of both arrays, in order |
| AuthCheckers.AllowContext.constructor | bakery/checker.go:265-276 | All operations are needed and none authorized |
| AuthCheckers.AllowContext.UpdateNeed | bakery/checker.go:430-442 | needIndex lists exactly the unauthorized positions, in order, and need their operations |
| AuthCheckers.AllowContext.CheckDirect | bakery/checker.go:354-371 | The new state is the one that DirectExact characterizes |
| AuthCheckers.AllowContext.CheckOne | bakery/checker.go:356-370 | One round of that loop |
| AuthCheckers.AllowContext.FindOk | bakery/checker.go:362-369 | The first macaroon whose conditions hold, if any |
| AuthCheckers.AllowContext.Grant | bakery/checker.go:395-405 | The new state is the one that GrantedExact characterizes |
| AuthCheckers.AllowContext.QueryOp | bakery/checker.go:384-406 | The new state and extra caveats after asking for each good macaroon of an operation |
| AuthCheckers.AllowContext.QueryAll | bakery/checker.go:379-408 | The same for the operations of the map in a given order, stopping when nothing is needed |
| AuthCheckers.AllowContext.CheckIndirect | bakery/checker.go:375-426 | The new state and caveats are those that IndirectExact and LoopCalls characterize; an authorizer's error is passed on |
| AuthCheckers.AuthChecker.Init | bakery/checker.go:165-192 | The index has exactly the verified macaroons of each operation in ascending order, with their conditions; a fatal error stops it; a second call changes nothing |
| AuthCheckers.AuthChecker.AddOps | bakery/checker.go:187-189 | Adds exactly the new macaroon to the index of each of its operations |
| AuthCheckers.AuthChecker.NewAllowContext | bakery/checker.go:265-297 | Every macaroon whose conditions hold is marked, an unverified one too |
| AuthCheckers.AuthChecker.AllPass | bakery/checker.go:288-293 | Whether all conditions hold |
| AuthCheckers.AuthChecker.Allow | bakery/checker.go:315-350 | The decision is the one that the theorems of Checker are about, for an index built by Init and any map order; and there is a sequence of calls to the authorizer, those that DecisionByCalls describes, from whose answers denial, caveats and report follow |
| AuthCheckers.AuthChecker.AllowedOps | bakery/checker.go:201-216 | Exactly the directly allowed operations, each with its first good macaroon; exactly the macaroons named are used |
| IdentChecker.LoginOnlyDirect | bakery/identchecker/checker.go:240-258 | Before an identity is known LoginOp is allowed if and only if it is directly allowed, and then its macaroon is recorded |
| IdentChecker.LoginUsesOne | bakery/identchecker/checker.go:150-156 | An allowed login uses exactly the macaroon it records |
| IdentChecker.LoginIndexIsPresentIff | bakery/identchecker/checker.go:150-156 | In whatever context: after an allowed login the index of LoginOp is there if and only if a macaroon granted LoginOp, directly or through an operation; always so in a context without an identity |
| IdentChecker.RecordedIffByMacaroon | bakery/checker.go:315-426 | A single operation that is allowed is recorded if and only if a macaroon is the reason and not only NoOp |
| IdentChecker.LoginWithoutMacaroon | bakery/identchecker/checker.go:240-258 | In a context with an identity whose authorizer allows LoginOp it is allowed without any macaroon, and nothing is recorded |
| IdentChecker.MayBeIsAllowedTo | bakery/identchecker/checker.go:240-258 | What may be authorized for a known identity is NoOp, directly allowed, granted by the OpsAuthorizer from an operation of a good macaroon, or granted by the Authorizer to that identity in a query about needed operations |
| IdentChecker.DeniedIffNotPermitted | bakery/identchecker/checker.go:240-258 | For an OpsAuthorizer and an Authorizer that each answer operations independently a request is denied if and only if some operation of it is in none of these ways permitted |
| IdentChecker.CaveatsAreOfCalls | bakery/identchecker/checker.go:240-258 | The caveats are exactly those that the Authorizer returned for NoOp and the OpsAuthorizer for other operations in the calls made |
| IdentChecker.AuthenticatedReply | bakery/identchecker/checker.go:149-228 | What login macaroon and context say of the identity decides who is answered: the declared identity, that of the context, a discharge for authentication with exactly the context's caveats, or an error exactly for a macaroon that declares none |
| IdentChecker.IdentAuthChecker.AllowOps | bakery/identchecker/checker.go:149-228 | All successes of one checker with an identity carry the same one; a success that asked for LoginOp has an identity; LoginOp is reported exactly when directly allowed, with its first good macaroon; when the request goes through, every other operation is NoOp, directly allowed, granted by the OpsAuthorizer, or granted by the Authorizer to that identity, and the caveats are those these two returned; conversely, when these two are steady and the identity is there if needed, it goes through exactly if they permit all of it; used are exactly the login macaroon and what that decision used; and the reply in every case, denial, discharge and error included |
| IdentChecker.IdentAuthChecker.Identify | bakery/identchecker/checker.go:149-175 | Whose request it is: the identity kept, else that of the login macaroon, which is known exactly when LoginOp is directly allowed, else that of the context or its caveats; and the error cases |
| IdentChecker.IdentAuthChecker.Login | bakery/identchecker/checker.go:150-156 | Exactly when LoginOp is directly allowed there is a login macaroon to index with; it is the first good one and the only one used |
| IdentChecker.IdentAuthChecker.Answer | bakery/identchecker/checker.go:176-227 | The reply of the second half for every combination of identity, caveats, requested operations and decision; what goes through is granted by one of the two authorizers, exactly what steady ones permit; LoginOp's index is there exactly when it was allowed; which macaroons are used |
| IdentChecker.IdentAuthChecker.AllowOthers | bakery/identchecker/checker.go:194-218 | The underlying decision for the identity; an operation that goes through is NoOp, directly allowed, or granted by the OpsAuthorizer or the Authorizer, whose caveats are all there; for steady ones exactly what they permit goes through |
| IdentChecker.IdentAuthChecker.InferFromMacaroon | bakery/identchecker/checker.go:262-280 | The first identity found is kept; else the declared one is, and an error or no identity leaves none |
| IdentChecker.IdentAuthChecker.InferFromContext | bakery/identchecker/checker.go:286-303 | The first identity found is kept; else that of the context is, unless there are caveats or an error |
| Squasher.SquashingPreservesMeaning | bakery/checker.go:452-503 | The squashed conditions hold at the same times and in the same environments as the given ones if and only if nothing is rewritten, the earliest expiry is read back as the same instant once written, or a condition that stays hides it |
| Squasher.UnreadableExpiryIsLost | bakery/checker.go:469-486 | A single expiry that is written in a way the parser rejects becomes a condition that never holds |
| Squasher.SquashingIsCanonical | bakery/checker.go:483-503 | The result depends on the set of conditions only |
| Squasher.SquashingIsIdempotent | bakery/checker.go:452-503 | Squashing the result changes nothing if and only if the rewritten expiry is left alone or read as an instant that is written the same |
| Squasher.OneExpiryIsLeft | bakery/checker.go:463-486 | Of all conditions `time-before` with a time that can be read and is not zero exactly the earliest is left, rewritten, and every other condition as it is |
| Squasher.NoExpiryIsAdded | bakery/checker.go:483-503 | Without such a condition exactly the given ones are left |
| Text.ParseCaveatIff | bakery/checkers/checkers.go:201-213 | A caveat has a name and an argument exactly when it is the name, not empty and without spaces, a space and the argument, or the name alone |
| Ordering.StringLeIff | bakery/checker.go:488-488 | A string comes first exactly if it is a prefix or is smaller at the first difference |
| Squasher.CaveatSquasher.Add | bakery/checker.go:457-461 | Keeps exactly the conditions that are not rewritten, and the earliest expiry of the others |
| Squasher.CaveatSquasher.Add0 | bakery/checker.go:463-481 | Which conditions are rewritten, and the new expiry |
| Squasher.CaveatSquasher.Final | bakery/checker.go:483-503 | The result is strictly sorted and has exactly the kept conditions and the earliest expiry |
| Ordering.DropRepeats | bakery/checker.go:490-501 | The in-place loop, of conditions here and of operations in `CanonicalOps`, leaves one of each run of equal elements |
| Squasher.Conditions | bakery/checker.go:99-115 | The squashed form of exactly the conditions of those caveats that are not a third party's, in the macaroons of the slices that were used |
| Squasher.ApplicableAre | bakery/checker.go:99-115 | Which conditions are gathered from used slices |
| MacaroonCaveats.NewCaveatId | bakery/macaroon.go:315-356 | The id is the base, or a byte 3 without one, and the encoded number of a candidate; it differs from the id of every third-party caveat, and is found after at most one candidate more than there are third-party caveats, and after exactly so many if and only if as many candidates from the first on are taken |
| MacaroonCaveats.CandidatesDiffer | bakery/macaroon.go:342-348 | Different numbers give different candidates |
| MacaroonCaveats.CandidatesFit | bakery/macaroon.go:332-348 | Candidates that are all taken are no more than the ids in use |
| MacaroonCaveats.NoMoreIdsThanCaveats | bakery/macaroon.go:336-353 | There are no more ids in use than third-party caveats |
| MacaroonCaveats.Macaroon.constructor | bakery/macaroon.go:198-211 | Versions above the latest become the latest; no caveats and no payloads |
| MacaroonCaveats.Macaroon.Clone | bakery/macaroon.go:82-90 | Same caveats and payloads, in a map of its own |
| MacaroonCaveats.Macaroon.MarshalJSONError | bakery/macaroon.go:95-101 | The error for external payloads below version 3 never occurs |
| MacaroonCaveats.Macaroon.AddFirstParty | bakery/macaroon.go:253-258 | Appends the condition, or changes nothing |
| MacaroonCaveats.Macaroon.PlacePayload | bakery/macaroon.go:292-304 | Below version 3 the payload is the id; otherwise it is kept under an id that no third-party caveat has |
| MacaroonCaveats.Macaroon.AddThirdParty | bakery/macaroon.go:284-308 | Succeeds exactly when the third party is found, the given condition can be encoded for the lesser of the two versions and the caveat is accepted; then appends one caveat at the given location whose id is that encoding or keeps it; no payload made for a caveat is ever overwritten; a failure adds no caveat |
| MacaroonCaveats.Macaroon.AddCaveat | bakery/macaroon.go:252-309 | Keeps the payload invariant on every path; when it succeeds; a remote caveat encodes the given condition for the third party found, at the given location, and a local one the bytes of "true" for the local one, at "local" |
| DischargeSlice.DischargeAll | bakery/slice.go:69-134 | Terminates for shrinking needs; the result is the given macaroons followed by what the requests made returned, in order; the failures are exactly the needs whose request failed, and success means there are none; every request is for a third-party caveat of the result without a discharge at hand, with the payload its macaroon holds, and goes to the local key exactly for a local caveat when there is one; every third-party caveat in the result has a discharge or its request failed |
| DischargeSlice.Start | bakery/slice.go:83-103 | The ids of the discharges at hand; every third-party caveat at hand has a discharge or is needed |
| DischargeSlice.IdsAtHand | bakery/slice.go:84-87 | Exactly the ids of the macaroons after the first |
| DischargeSlice.AddCaveats | bakery/slice.go:90-100 | The needs that NeedsAre characterizes |
| DischargeSlice.NeedsAre | bakery/slice.go:90-100 | Exactly the third-party caveats without a discharge at hand, each with the payload its macaroon holds for its id, or none |
| DischargeSlice.LogOutcome | bakery/slice.go:105-128 | Every request made either adds what it returned or is among the failures |
| DischargeSlice.Step | bakery/slice.go:105-128 | A successful request keeps the coverage of all caveats and lowers the weight |
| DischargeSlice.CoverageSurvives | bakery/slice.go:105-128 | Coverage survives when a need goes that has a discharge or has failed |
| Uvarints.UvarintLen | bakery/codec.go:374-381 | The length of the encoding, for every value |
| Uvarints.AppendUvarint | bakery/codec.go:360-370 | Appends the encoding |
| Uvarints.UvarintInjective | bakery/codec.go:360-370 | Different values have different encodings |
| Uvarints.UvarintVectors | bakery/codec.go:360-370 | The encodings of 0, 127, 128, 300 and 16384 |
| Uvarints.UvarintRoundTrip | bakery/codec.go:331-331 | Every 64-bit value is read back, whatever follows it |
| Uvarints.ReadIsUint64 | bakery/codec.go:331-331 | What is read fits in 64 bits |
| CaveatCodec.CaveatRoundTrip | bakery/codec.go:141-317 | Decoding an encoded caveat gives back root key, condition, version and namespace (the legacy one for version 2), for every third-party version from 2 on; no encoding is rejected as too short |
| CaveatCodec.SecretRoundTrip | bakery/codec.go:195-356 | The same for the secret part |
| CaveatCodec.TakeCountedWritten | bakery/codec.go:331-336 | A counted field is read back and the rest left over |
| CaveatCodec.TakeCountedIff | bakery/codec.go:331-336 | A field is read exactly from data that is its length, in any readable encoding, its bytes and the rest |
| CaveatCodec.SecretIff | bakery/codec.go:319-356 | Exactly the secret parts are accepted that consist of the version, a counted root key, from version 3 on the counted text of a namespace, and the condition |
| CaveatCodec.DecodeIff | bakery/codec.go:208-317 | Exactly the version 2 and 3 payloads are accepted that are long enough, carry the prefix of the key and open to such a secret part; what is decoded is that part, the sender's key, the version and the payload |
| CaveatCodec.TakeCountedPanics | bakery/codec.go:331-336 | Slicing a counted field goes out of range if and only if length plus size of its encoding overflows 64 bits |
| CaveatCodec.SecretPanics | bakery/codec.go:319-356 | Decoding a secret part panics if and only if its version is right and the length of the root key overflows, or in version 3 the root key is read and the length of the namespace overflows |
| CaveatCodec.DecodePanics | bakery/codec.go:208-317 | Decoding a version 2 or 3 payload panics if and only if it is long enough, is meant for the key, opens, and its secret part overflows so |
| CaveatCodec.GreatestPanics | bakery/codec.go:331-336 | A concrete field that overflows |
| CaveatCodec.SealedOverflowPanics | bakery/codec.go:280-356 | For every first party, third party, nonce and version there is a properly sealed payload that makes decoding panic |
| Namespaces.UnmarshalMarshal | bakery/checkers/namespace.go:63-110 | The text of any valid namespace is parsed back to it, colons in the URIs and empty prefixes included |
| Namespaces.TextIsUnique | bakery/checkers/namespace.go:63-84 | The text does not depend on the map's iteration order |
| Namespaces.ParsedIsValid | bakery/checkers/namespace.go:86-110 | What is accepted has only valid URIs and prefixes |
| Namespaces.EntryParses | bakery/checkers/namespace.go:90-94 | A field is split at its last colon, so that a URI may contain colons |
| Namespaces.Namespace.Register | bakery/checkers/namespace.go:182-192 | Panics exactly for an invalid URI or prefix; a registered URI keeps its prefix; validity is kept |
| Namespaces.Namespace.MarshalText | bakery/checkers/namespace.go:63-84 | All entries, sorted by URI, for any iteration order |
| Namespaces.Namespace.UnmarshalText | bakery/checkers/namespace.go:86-110 | Fails exactly for a malformed field or a repeated URI, and then leaves the namespace alone |
| Base64.DecodeEncode | bakery/oven.go:148-227 | Text ids are decoded to the bytes they were made from (section 5 of RFC 4648, without padding) |
| Base64.EncodedIsText | bakery/oven.go:221-228 | Text ids consist of letters, digits, hyphens and underscores, and how long they are |
| Base64.Vectors | bakery/oven.go:221-228 | A test vector of section 10 of RFC 4648 |
| Oven.CanonicalOps | bakery/oven.go:262-288 | The strictly sorted list of the same set of operations; the argument is unchanged |
| Oven.CanonicalIsUnique | bakery/oven.go:262-288 | The canonical form depends on the set only and is its own canonical form |
| Oven.MacaroonIdOps | bakery/oven.go:304-331 | Flattening the groups gives the operations back, without repeated neighbours; no group is empty and neighbouring groups have different entities |
| Oven.AddToGroups | bakery/oven.go:312-325 | One round of that loop |
| Oven.StrictHasNoRepeats | bakery/oven.go:300-303 | Canonical operations lose nothing in the groups |
| Oven.OneGroupForEachEntity | bakery/oven.go:304-341 | Canonical operations give one group for each entity, the entities in order |
| Oven.DecodeMinted | bakery/oven.go:138-237 | The id minted for any version decodes to the storage id and exactly the canonical operations, whatever the legacy operation is |
| Oven.NewMacaroonId | bakery/oven.go:200-228 | No id exactly without operations; otherwise a byte 3 and the encoding of nonce, storage id and groups, one group for each entity and together the canonical operations, as text exactly for the versions 0 and 1; it decodes to the storage id and the canonical operations |
| Oven.DecodePanics | bakery/oven.go:138-196 | Decoding an id panics if and only if it is empty or, once its text form is undone, starts with 2 and is shorter than version and UUID |
| Oven.DecodeVersion2 | bakery/oven.go:162-164 | An id of version 2, raw or as text, gives the storage id after the UUID, and the legacy operation unless it is empty |
| Oven.DecodeOld | bakery/oven.go:185-191 | An older id gives the storage id up to its last hyphen if it starts with a lower-case hexadecimal digit and has one, and otherwise none |
| Oven.DecodeOldOps | bakery/oven.go:192-195 | An older id gives the legacy operation unless that is empty |
| RelativeURL.RelativeInvertsResolution | internal/httputil/relativeurl.go:14-64 | For absolute paths without dot segments the result is not empty and never climbs above the root, and it is relative and resolves to exactly the target if and only if the target does not begin with the base's directory and another slash |
| RelativeURL.UpsAreBounded | internal/httputil/relativeurl.go:40-52 | For all absolute paths there are no more ".." parts in front than the base has directories |
| RelativeURL.NeverAboveRoot | internal/httputil/relativeurl.go:47-63 | Followed segment by segment from the base's directory, the result never goes above the root, for every absolute base and normalized target |
| RelativeURL.RelativeURLPath | internal/httputil/relativeurl.go:23-64 | An error exactly for paths that are not absolute, else the path that theorem is about |
| RelativeURL.CommonPrefixIsLongest | internal/httputil/relativeurl.go:40-46 | The directories in common are the longest common prefix |
| RelativeURL.EmptySegmentExample | internal/httputil/relativeurl.go:47-63 | From "/" the target "//b" is given as "/b", which is neither relative nor leads there |
| Declared.InferDeclaredFromConditions | bakery/checkers/declared.go:108-137 | A key has a value if and only if it is declared and only with that value |
| Declared.InferDeclared | bakery/checkers/declared.go:94-104 | The same for a slice: of all caveats without a location, in all its macaroons |
| Declared.InferenceIsOrderIndependent | bakery/checkers/declared.go:108-137 | The result depends on the set of conditions only |
| Declared.DeclaredConsistentOrFail | bakery/checkers/declared.go:67-82 | All well-formed declared conditions pass the check if and only if no key is declared with two values |
| Declared.SliceDeclarationsPass | bakery/checkers/declared.go:67-104 | All declarations of a slice's first-party caveats pass the check if and only if each is the only value of its key among those inferred from |
| Declared.SliceConsistentOrFail | bakery/checkers/declared.go:67-104 | When a caveat that declares has no location exactly if it has no verification id, they all pass if and only if no key has two values |
| Declared.UnlocatedThirdPartyConflicts | bakery/checkers/declared.go:94-104 | A third-party caveat without a location whose id declares another value makes the check of a first-party declaration fail |
| Declared.DeclaredCaveatParses | bakery/checkers/declared.go:45-50 | A declared caveat declares its key and value |
| Declared.DeclaredPairIff | bakery/checkers/declared.go:118-126 | Exactly which conditions declare a key and a value |
| Declared.InvalidKeyGivesError | bakery/checkers/declared.go:43-50 | A key that is empty or has a space gives an error caveat, which declares nothing |
| Declared.DeclaredIsSeenOnlyWithoutPrefix | bakery/checkers/declared.go:113-121 | A declared caveat added under a prefix is inferred if and only if the prefix is empty |
| Declared.CheckNeedDeclared | bakery/discharge.go:153-198 | The error cases, and the checker's caveats completed with the missing declarations |
| Declared.DeclaredKeys | bakery/discharge.go:173-189 | Exactly the keys that first-party caveats declare, or an error exactly for a declaration without value |
| Declared.MissingCompletes | bakery/discharge.go:190-196 | Afterwards every needed key is declared |
| Declared.MissingAre | bakery/discharge.go:190-196 | What is added are the empty declarations of exactly the needed keys not declared yet |
| Declared.CheckCondition | bakery/discharge.go:124-135 | Exactly when there is an error; otherwise the caveats extend those that the checker gives for the wrapped condition, declare every needed key, and what they add is `declared` without a value for exactly the needed keys not declared yet |
| Declared.FirstPartyIsNotWrapped | bakery/checkers/declared.go:57-61 | A caveat without a location becomes an error caveat of the first party |
| Declared.NeedDeclaredRoundTrip | bakery/checkers/declared.go:57-65 | The third party checks the wrapped condition, and every key joined in the caveat is declared in the discharge |

## Left out

- HTTP client, dischargers, agents, browser and form interaction, cookies, loggers and examples: input and output.
- The MongoDB and PostgreSQL backings: represented by the contract of the `Backing` interface. Errors of a backing read inside `Get`, context cancellation and cancelled calls other than `Abort` are not modelled.
- Overflow of Go's 64-bit durations and clamping of far instants: times are mathematical integers.
- A bound on the map of current keys: `rootKeyFromCache` writes it without `setCurrent`, so there is none.
- Keys inserted by other processes may be hidden by a negative entry made earlier: `CacheRefinesLookup` says so.
- Request bodies that are absent: nothing is read, sought or closed then.
- Macaroon signatures, NaCl boxes, JSON and protobuf: functions with an inverse law; RFC 3339: functions without any law. The JSON format of version 1 caveats is a parameter of the decoder.
- Uvarints.AppendUvarint: does not model the growth of the slice's capacity, nor that slices may share memory.
- Oven.CanonicalOps: returns a value, so that a canonical argument is returned as the same slice is not captured.
- Namespaces: `Equal`, `Resolve` and `EnsureResolved`; the former takes a missing URI for an empty prefix.
- AuthCheckers.AuthChecker.Allow: the errors collected for the message of a denial are not modelled, and a macaroon marked as used need not have been needed, since several may grant the same operation before the list shrinks.
- IdentChecker.IdentAuthChecker.AllowOps: the request's context carries no identity yet, as for the outermost call; `LoginIndexIsPresentIff` says what differs for one that does.
- `Slice.Purge` and `Slice.Bind`; the local discharge of a caveat is a parameter like any other discharge.
- Relative references with a scheme, an authority or a query: only paths are resolved.
