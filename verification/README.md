# GoAlert: proofs about its protocols, codecs and caches

GoAlert is mostly SQL stores and glue. This project models the parts of it that carry real state, interleaving,
modular arithmetic or encodings, and proves what they promise over every input or every run. Code that updates things
in place is modelled by classes and methods; each method is tied to a function on values, and the theorems are about
those functions and about state machines that interleave them.

| file | what it models |
|---|---|
| `KeyringSignature`, `KeyringStore`, `KeyringProtocol`, `KeyringSafety` | the rotating keyring: one shared row, any number of processes with stale copies of it, key indexes modulo 256 |
| `CtxLocker`, `CtxLockProtocol`, `CtxLockSafety` | the per-ID lock with a cancellable first-come-first-served queue, all interleavings, mutex with an explicit owner |
| `DataLoader`, `DataLoaderSafety`, `DataFetcher`, `AggFetcher` | the batching and caching loader, on values and as shared objects updated in place, and its aggregating variant |
| `Decimal`, `UrlCodec`, `ShortUrl` | short URLs: decimal text, base-128 varint, unpadded base64 over a custom alphabet, UUID text |
| `AlertStore`, `AlertSafety` | alert status and its log under create, upsert, single, bulk and by-service updates |
| `AlertRecipient` | the recursive query that decides whether an alert notification still goes to the right person |
| `PolicyCache` | the API key policy cache: two bounded LRU caches in front of the database |
| `CycleMonitor` | the engine's cycle IDs and waiting for a whole cycle |
| `Paging` | keyset pagination of integration keys and escalation policies |
| `Identifiers` | text forms of alert dedup IDs and provider message IDs |
| `Common` | options, results and bytes |

## Assumptions

- Keyring: ECDSA is ideal. A table of the signatures ever made decides verification, so nothing about keys is assumed
  that no implementation could meet. Fresh keys differ from all earlier ones, every process has the same `MaxOldKeys`
  and `RotationDays`, and the row's clock does not go back.
- Loader: the theorems about values state their contract on `FetchFunc` (`RequestedOnlyRun`, `TruthfulRun`,
  `AnsweredRun`, `AggregatedRun`); without any, `DataLoaderSafety.ResultsAreFinalExactly` says when results are final.
- Alerts: each operation is one atomic transaction. The schema's triggers and indexes are part of the model, not
  assumed properties: the dedup key is cleared on close (`migrate/schema.sql:309-317`) and the pair of service and
  dedup key is unique (`migrate/schema.sql:1900`).
- Policy cache: a key becomes valid only when it is issued, under an ID nobody has asked for yet, and only invalid keys
  are revoked. Each call holds the mutex from start to end and sees one moment of the database.
- Cycle monitor: `uuid.New` never repeats an ID, and the function that ends a cycle is called at most once.
- Paging: `lower(name)` is ordered by some collation, given as a function into the reals; the table does not change
  during a walk.

## What turned out false

- `ShortPath` has a short form exactly for alert numbers 1 to 2^56-1. It says it returns an empty string if it cannot
  shorten a path, but numbers from 2^56 up to the largest int overflow the 8-byte varint buffer and panic
  (`ShortUrl.AlertsWithoutShortForm`, `ShortUrl.RoundTripExactly`).
- The page cursor of the escalation policy resolver never carries the favorite flag, unlike those of services,
  schedules and rotations. With favorites first, a walk loses policies; `Paging.ResolverWalkIsCompleteExactly` says
  exactly when it does not, and `Paging.SecondFavoriteIsLost` is an example.
- A value whose ID was not asked for in a batch is not always ignored, as a comment in `fetchAll` says: it can rewrite
  the finished result of an earlier batch, so that two callers get different answers
  (`DataLoaderSafety.ExtraValuesRewriteResults`). Finished results stay as they are exactly in the runs in which no fetch
  ends with another value for one of them (`DataLoaderSafety.ResultsAreFinalExactly`).
- A dedup ID whose type holds a colon, and a provider message ID that is half empty, has a colon in its name or bears a
  legacy Twilio name, do not come back from the database (`Identifiers.DedupRoundTripExactly`,
  `Identifiers.ProviderRoundTripExactly`).
- The policy search does not report a connection that breaks while rows are read. It returns a part of the rows as if
  it were all exactly when that happens before the last row and every row until then can be scanned
  (`Paging.PolicySearchIsSoundExactly`, with an example in `Paging.BrokenConnectionTruncates`); the key search never does.
- The last condition of the recipient query never decides (`AlertRecipient.FinalCheckNeverDecides`).

## Model

| member | source | states |
|---|---|---|
| `SignatureCodec.SignatureRoundTrip` | keyring/store.go:494-594 | index, r and s below 2^224 come back from the 60 bytes, whatever leading zero bytes were stripped |
| `SignatureCodec.SignatureRoundTripOnlyBelow` | keyring/store.go:59-63 | the 28-byte fields suffice exactly for numbers below 2^224 |
| `SignatureCodec.DecodeAccepts` | keyring/store.go:557-584 | the decoder accepts exactly 60 bytes of version 1 with field lengths up to 28, and rejects every other length |
| `SignatureCodec.IntBytesLength` | keyring/store.go:505-508 | a number needs at most n bytes exactly when it is below 256^n |
| `SignatureCodec.NoLeadingZeroByte` | keyring/store.go:505-508 | the bytes of a positive number do not start with zero |
| `SignatureCodec.BytesAreBigEndian` | keyring/store.go:591-594 | the first byte of a number is the most significant one |
| `SignatureCodec.EncodedBytes` | keyring/store.go:494-520 | what stands in which of the 60 bytes, the zeros that fill up the fields included |
| `SignatureCodec.DecodesWhatBytesCarry` | keyring/store.go:557-594 | index, r and s are read exactly from the places where the format puts them |
| `KeyringStore.NormalizeConfig` | keyring/store.go:142-156 | which configurations are accepted, and that they are kept but for MaxOldKeys 0, which means 1 |
| `KeyringStore.InsertRow` | keyring/store.go:168-180 | an insert that lost the race leaves the row as it is; otherwise keys 0 and 1 are the signing and the next key |
| `KeyringStore.InBytesMeaning` | keyring/store.go:375-379 | the bytes kept by the loop are those of some index in its range, also for negative indexes |
| `KeyringStore.DB.RotateVerificationKeys` | keyring/store.go:373-382 | the loop computes the map of the kept bytes plus the new key |
| `KeyringStore.DB.CommitNewKeyring` | keyring/store.go:293-371 | inserts the first row, or adopts the row that won the race |
| `KeyringStore.DB.RefreshAndRotateKeys` | keyring/store.go:396-469 | rotates the row if forced or due, and leaves the process with a copy of the row |
| `KeyringStore.DB.Sign` | keyring/store.go:486-521 | fails without a signing key, otherwise encodes the numbers under the current index byte |
| `KeyringStore.DB.Verify` | keyring/store.go:553-606 | decodes, looks the key up by byte, checks, and reports old keys |
| `KeyringProtocol.WindowExact` | keyring/store.go:148-149 | with at most 254 old keys the map holds exactly the bytes of the window, each with its own key |
| `KeyringProtocol.RotatedWindow` | keyring/store.go:373-382 | one rotation takes the window of n to the window of n+1 despite the wraparound |
| `KeyringProtocol.BuiltIsWindow` | keyring/store.go:424-454 | any number of rotations of the first map yields exactly the window |
| `KeyringProtocol.MaxOldKeysBoundIsExact` | keyring/store.go:148-149 | no retained key is ever lost exactly when MaxOldKeys is at most 254 |
| `KeyringSafety.StepKeepsInv` | keyring/store.go:293-469 | every step of every process keeps: row, copies and issued signatures belong to the one sequence of keys |
| `KeyringSafety.RunKeepsInv` | keyring/store.go:293-469 | the same over whole runs |
| `KeyringSafety.RowHoldsWindow` | keyring/store.go:424-454 | after every run the row maps exactly the bytes of max(0,n-MaxOldKeys)..n+1, key n signs and key n+1 is next |
| `KeyringSafety.SignaturesVerifyExactly` | keyring/store.go:486-606 | in every run, a signature of rotation a verifies at a process at rotation b exactly when b-MaxOldKeys <= a <= b+1, is old exactly when a < b, and verifies for no other message |
| `KeyringSafety.VerifyAcceptsExactly` | keyring/store.go:553-606 | for arbitrary bytes, in every run: a message is accepted exactly when the bytes carry a signature of it issued inside the window, and as old exactly when that is of an earlier rotation |
| `KeyringSafety.TokensVerifyExactly` | keyring/store.go:527-540 | the same window for the key check of tokens; current exactly when not older |
| `KeyringSafety.TokensAcceptExactly` | keyring/store.go:527-540 | the same for a token with any index and signature |
| `KeyringSafety.RefreshRotatesExactly` | keyring/store.go:396-469 | in every run a refresh rotates exactly when it is forced or RotationDays have passed since the last rotation; the next key signs then and a new one is next; the process gets a copy of the row |
| `KeyringSafety.FirstRefresh` | keyring/store.go:293-371 | the first refresh creates the row, or adopts the one of a faster process |
| `KeyringSafety.RotationsSpread` | keyring/store.go:424-446 | in every run with automatic rotation only, rotations i and j are at least (j-i) rotation periods apart |
| `KeyringSafety.SignaturesOutliveRotations` | keyring/store.go:73-75 | with automatic rotation only, a signature made in sync with the row verifies against it for MaxOldKeys * RotationDays days |
| `CtxLocker.NormalizeConfig` | ctxlock/idlocker.go:37-50 | MaxHeld 0 means 1, a negative one panics, all else is kept |
| `CtxLocker.UnlockGrantsFirstOpen` | ctxlock/unlock.go:12-48 | the loop hands over to the first waiter that has not abandoned, dropping exactly those before it; otherwise it decrements |
| `CtxLocker.UnlockPanicsExactly` | ctxlock/unlock.go:12-20 | the panic comes exactly when nobody still waits and no lock is held |
| `CtxLocker.WithoutAt` | ctxlock/lock.go:45-52 | splicing at the first match is removal of that element |
| `CtxLocker.IDLocker.constructor` | ctxlock/idlocker.go:37-50 | starts with no counts and no queues |
| `CtxLocker.IDLocker.BeginLock` | ctxlock/lock.go:13-37 | the fast path, the full queue and queueing |
| `CtxLocker.IDLocker.CancelLock` | ctxlock/lock.go:43-57 | removes its own channel and an empty queue |
| `CtxLocker.IDLocker.Unlock` | ctxlock/unlock.go:8-49 | the retry loop computes the hand-off or the decrement, and panics exactly when the count falls below zero |
| `CtxLockSafety.StepKeepsInv` | ctxlock/lock.go:12-63 | every step of every interleaving keeps counts, queues, waiters and the mutex owner consistent |
| `CtxLockSafety.RunKeepsInv` | ctxlock/lock.go:12-63 | the same over whole runs |
| `CtxLockSafety.LockOutcome` | ctxlock/lock.go:12-37 | in every run Lock is granted exactly if fewer than MaxHeld calls hold the ID, refused exactly if MaxHeld do and MaxWait are queued, and otherwise last in the queue |
| `CtxLockSafety.CancelOutcome` | ctxlock/lock.go:40-57 | a call that gives up fails and leaves the queue; the others keep their order |
| `CtxLockSafety.ReleaseOutcome` | ctxlock/unlock.go:12-23 | with nobody queued one holding ends, and the count never falls below zero |
| `CtxLockSafety.CountIsHolders` | ctxlock/lock.go:12-19 | in every run count[id] is the number of holders and at most MaxHeld |
| `CtxLockSafety.QueuedOnlyWhenFull` | ctxlock/lock.go:14-37 | in every run someone is queued only while all MaxHeld locks are held |
| `CtxLockSafety.NothingLeaks` | ctxlock/unlock.go:12-29 | map entries exist only for positive counts and non-empty queues; queues respect MaxWait |
| `CtxLockSafety.GrantedNeverFails` | ctxlock/lock.go:39-60 | a call that was granted never returns an error, whatever happens later |
| `CtxLockSafety.HandOffIsFair` | ctxlock/unlock.go:24-47 | a hand-off goes to the call that queued before every other one still waiting |
| `CtxLockSafety.FastPathIsFair` | ctxlock/lock.go:14-19 | the fast path is taken only when nobody waits |
| `CtxLockSafety.OwnerCanMove` | ctxlock/unlock.go:31-33 | the mutex owner can always move: the popped channel's waiter sends or has closed without the mutex |
| `CtxLockSafety.OwnerProgress` | ctxlock/unlock.go:12-48 | each own step brings the owner nearer to releasing the mutex and no other call's step sets it back |
| `CtxLockSafety.UnlockNeverStuck` | ctxlock/unlock.go:12-48 | from every reachable state the owner moves a bounded number of times before the mutex is free, and is never blocked |
| `CtxLockSafety.UnlockStepsAreTheLoop` | ctxlock/unlock.go:12-48 | an unlocker's single steps perform exactly the loop of the method |
| `DataLoaderSafety.StepKeepsInv` | dataloader/fetcher.go:144-224 | every step keeps each ID in one place of one batch, open or done with that batch |
| `DataLoaderSafety.EachIDInOneBatch` | dataloader/fetcher.go:200-220 | in every run each requested ID is in exactly one place of exactly one batch |
| `DataLoaderSafety.BatchesRespectMaxBatch` | dataloader/fetcher.go:218-220 | no batch grows beyond MaxBatch |
| `DataLoaderSafety.PendingBatchesFillUp` | dataloader/fetcher.go:206-220 | a batch whose timer has not fired takes the next new ID until it has MaxBatch |
| `DataLoaderSafety.RequestOutcome` | dataloader/fetcher.go:200-216 | a cached ID starts nothing; a new one waits, open, in a batch that is not yet fetched |
| `DataLoaderSafety.FailedFetchOutcome` | dataloader/fetcher.go:160-167 | a failed fetch gives its error to exactly the results of its batch and closes them |
| `DataLoaderSafety.CallOutcome` | dataloader/fetcher.go:124-131 | a call returns value and error of its result, and only once that is done |
| `DataLoaderSafety.ChannelsCloseOnce` | dataloader/fetcher.go:160-184 | a delivery closes only open channels, each once, and a batch is delivered once |
| `DataLoaderSafety.DetachedBatchIsFrozen` | dataloader/fetcher.go:147-153 | the IDs of a batch that no longer collects never change again |
| `DataLoaderSafety.DoneResultsAreFinal` | dataloader/fetcher.go:169-184 | if only requested IDs are returned, a result never changes after its channel is closed |
| `DataLoaderSafety.FetchOneRefinesLookup` | dataloader/fetcher.go:187-224 | for every schedule a completed call returns what fetching its one key returns, or an error and no value |
| `DataLoaderSafety.TruthfulRunsLookUp` | dataloader/fetcher.go:187-224 | a call that completes without an error returns what its key's lookup returns, even if fetches return values of other keys |
| `DataLoaderSafety.ErrorFreeRunsLookUp` | dataloader/fetcher.go:187-224 | without fetch errors every completed call is exactly a direct fetch, under the same contract |
| `DataLoaderSafety.DeliveryKeepsDoneExactly` | dataloader/fetcher.go:169-184 | a delivery leaves all finished results alone exactly when, for each, the last value of its ID is absent or the stored one |
| `DataLoaderSafety.ResultsAreFinalExactly` | dataloader/fetcher.go:144-185 | over runs: results never change after their channels are closed exactly when every delivery is of that kind |
| `DataLoaderSafety.ExtraValuesRewriteResults` | dataloader/fetcher.go:169-179 | a run from the empty loader in which two callers of one ID get different answers |
| `DataFetcher.Batch.Add` | dataloader/batch.go:16-24 | appends to ids and results in step and returns the new open result |
| `DataFetcher.Fetcher.StartBatch` | dataloader/fetcher.go:207-214 | a new collecting batch |
| `DataFetcher.Fetcher.AddID` | dataloader/fetcher.go:215-220 | the new entry, and a full batch stops collecting |
| `DataFetcher.Fetcher.FetchOne` | dataloader/fetcher.go:193-223 | the heap changes as the value model says, and the returned result is the cached one |
| `DataFetcher.Fetcher.BeginFetch` | dataloader/fetcher.go:147-153 | detaches the batch if it still collects |
| `DataFetcher.Fetcher.StoreValues` | dataloader/fetcher.go:169-179 | the loop stores each value into the cached result of its ID |
| `DataFetcher.Fetcher.CloseResults` | dataloader/fetcher.go:160-184 | the loop closes exactly the channels of the batch, with the error if there is one |
| `DataFetcher.Fetcher.FetchingResultsAreOpen` | dataloader/fetcher.go:160-184 | in every reachable state those channels are open and distinct, so no close panics |
| `DataFetcher.Fetcher.EndFetch` | dataloader/fetcher.go:158-184 | delivery on the heap is delivery on values, in every reachable state |
| `AggFetcher.SelectEmpty` | dataloader/aggfetcher.go:62-73 | an ID has no entry exactly when no value has it |
| `AggFetcher.GroupByID` | dataloader/aggfetcher.go:62-80 | one entry per occurring ID with exactly its values in their order, in any map order |
| `AggFetcher.GroupedAnswers` | dataloader/aggfetcher.go:55-81 | grouping makes a complete fetch a per-key lookup |
| `AggFetcher.FetchAggregateRefinesFilter` | dataloader/aggfetcher.go:96-105 | for every schedule a completed call returns exactly the stored values of its ID, in order |
| `Decimal.DigitsRoundTrip` | config/shorturl.go:78 | decimal text determines its number |
| `Decimal.DigitsAreDecimal` | config/shorturl.go:78 | decimal notation digit by digit |
| `Decimal.DigitsHaveNoLeadingZero` | alert/dedup.go:48-50 | digits only, and a leading zero for zero alone |
| `Decimal.DigitsOfValue` | config/shorturl.go:57-78 | every digit text without leading zeros is the text of its value |
| `Decimal.LeadingZeros` | config/shorturl.go:57 | leading zeros do not change the value |
| `Decimal.AtoiExactly` | alert/dedup.go:37-40 | which texts are read as which ints: an optional sign and digits, within the range |
| `Decimal.AtoiOfDigits` | config/shorturl.go:57-58 | plain digits are read unless the number exceeds an int |
| `Decimal.AtoiOfFormatInt` | alert/dedup.go:38-49 | every int survives printing and reading |
| `UrlCodec.PutUvarintLength` | config/shorturl.go:61-62 | the varint of n has at most k bytes exactly when n is below 128^k |
| `UrlCodec.UvarintRoundTrip` | config/shorturl.go:61-77 | reading a varint gives the number back |
| `UrlCodec.PutUvarintLayout` | config/shorturl.go:61-62 | base 128, least significant digits first, continuation bits in all bytes but the last |
| `UrlCodec.UvarintExactly` | config/shorturl.go:77 | what any bytes are read as, and 0 for unfinished and oversized ones |
| `UrlCodec.AlphabetMatches` | config/shorturl.go:36-41 | the character and value tables agree with the alphabet and are inverse to each other |
| `UrlCodec.Base64RoundTrip` | config/shorturl.go:41 | unpadded base64 over that alphabet decodes to the encoded bytes |
| `UrlCodec.GroupsAreBigEndian` | config/shorturl.go:41 | four characters are the base-64 digits of three bytes, most significant first |
| `UrlCodec.Decode64Exactly` | config/shorturl.go:73-82 | exactly the texts over the alphabet of a possible length are decoded, line breaks left out |
| `UrlCodec.ReencodeDecoded` | config/shorturl.go:73-82 | what is decoded encodes to the same text but for unused bits of the last character |
| `UrlCodec.LineBreaksAreSkipped` | config/shorturl.go:73-82 | a line break anywhere makes no difference |
| `UrlCodec.UUIDRoundTrip` | config/shorturl.go:50-88 | printing a UUID and parsing it gives the bytes back |
| `UrlCodec.UUIDLayout` | config/shorturl.go:88 | the bytes in order as lower-case hex, in groups of 8, 4, 4, 4 and 12 digits |
| `UrlCodec.ParseUUIDExactly` | config/shorturl.go:50-54 | which lower-case texts are read as which UUID |
| `ShortUrl.LinkOfCanonical` | config/shorturl.go:38-41 | canonical paths match their pattern and spell their own link |
| `ShortUrl.LinkOfExactly` | config/shorturl.go:38-57 | which paths, canonical or not, are of which alert or service |
| `ShortUrl.ShortPathExactly` | config/shorturl.go:47-66 | exactly the paths of shortenable links get a short path, and exactly those of too large alert numbers panic |
| `ShortUrl.ShortPathOfLink` | config/shorturl.go:47-66 | the short path depends only on the link spelled, and which links have none |
| `ShortUrl.LongPathOfShortForm` | config/shorturl.go:70-91 | a short form expands to the canonical path |
| `ShortUrl.LongPathExactly` | config/shorturl.go:70-91 | for every text: the canonical path of what is encoded behind "/a/" or "/s/", and the empty string exactly for all else |
| `ShortUrl.ShortenedPathsComeBackCanonical` | config/shorturl.go:47-91 | every accepted path comes back in canonical form, which shortens to the same path |
| `ShortUrl.RoundTripExactly` | config/shorturl.go:47-91 | a canonical path survives exactly for services and alert numbers 1 to 2^56-1 |
| `ShortUrl.AlertsWithoutShortForm` | config/shorturl.go:57-62 | which numbers are unknown and which overflow the buffer |
| `ShortUrl.ShortPathsAreInjective` | config/shorturl.go:47-66 | two paths share a short path exactly when they spell the same link |
| `AlertStore.Store.CreateTx` | alert/store.go:537-576 | no closed alerts, no second open alert for a key, one created entry |
| `AlertStore.Store.CreateOrUpdateTx` | alert/store.go:603-683 | the three statements and what each logs |
| `AlertStore.Store.UpdateStatusTx` | alert/store.go:751-790 | closed and acknowledged alerts are refused; a multi-ack step logs again |
| `AlertStore.Store.UpdateRows` | alert/store.go:127-145 | an UPDATE visits each row once and returns the IDs it changed |
| `AlertStore.Store.LogManyTx` | alert/alertlog/store.go:217-248 | one entry for each listed ID |
| `AlertStore.Store.UpdateManyAlertStatus` | alert/store.go:434-529 | restricts the listed IDs to the organization, advances, selects the acknowledged ones again for a user, logs and returns them |
| `AlertStore.Store.UpdateStatusByService` | alert/store.go:371-426 | logs first and updates then |
| `AlertSafety.ServiceLogsWhatItUpdates` | gadb/queries.sql.go:398-419 | the log statement picks exactly the rows the later update changes |
| `AlertSafety.StepKeepsInv` | alert/store.go:371-790 | every transaction keeps keys unique and the log in step with the statuses |
| `AlertSafety.CreateOutcome` | alert/store.go:537-593 | after any run a create is refused exactly for a closed alert or the key of an open one, and else adds just that alert and its entry |
| `AlertSafety.UpsertWithoutAlert` | alert/store.go:83-104 | with no open alert for the key a trigger creates one with the given service, key and status, and all else does nothing |
| `AlertSafety.UpsertOfAlert` | alert/store.go:637-682 | with an open alert a trigger changes no alert and logs one suppressed duplicate unless one is recent; an acknowledgement logs exactly if it was triggered; a close always does |
| `AlertSafety.UpdateOneOutcome` | alert/store.go:751-790 | each refusal and when it comes; otherwise the new status and the one entry |
| `AlertSafety.UpdateListedOutcome` | alert/store.go:434-529 | when the bulk update is refused; otherwise the status of every alert, the returned IDs and all that is logged |
| `AlertSafety.UpdateServiceOutcome` | alert/store.go:371-426 | when the by-service update is refused; otherwise the status of every alert and all that is logged |
| `AlertSafety.ClosedLoggedExactlyOnce` | alert/store.go:371-790 | in every run an alert has one closed entry if it is closed and none otherwise, and one created entry |
| `AlertSafety.OpenKeysAreUnique` | migrate/schema.sql:1900 | at most one open alert per service and dedup key, in every run |
| `AlertSafety.ClosedForever` | alert/store.go:371-790 | whatever follows, a closed alert never changes, no alert disappears and the log only grows |
| `AlertSafety.StatusChangesAreLogged` | alert/store.go:371-790 | after any run, whatever acknowledges or closes an alert writes exactly one entry for it, of the right kind |
| `AlertSafety.BulkUpdateLogsEachOnce` | alert/store.go:500-528 | each alert that qualifies is logged and returned once, others not, though the input may repeat IDs |
| `AlertSafety.UpsertTouchesTheOpenAlert` | alert/store.go:613-622 | nothing is returned exactly when there is no open alert to update; a new one is created exactly when there is none; all others stay as they are |
| `AlertRecipient.RelatedIsReachable` | engine/alertrecipient.go:23-32 | on every link graph, cyclic or not, the recursive query finds exactly the messages bundled into the root |
| `AlertRecipient.AllAgreeExactly` | engine/alertrecipient.go:43-65 | the all-of check holds exactly when each reachable message agrees on its own |
| `AlertRecipient.GuardDecides` | engine/alertrecipient.go:84-140 | when a notification is allowed, and when it is rejected for which reason, unavailable or not checked, with the condition on each message written out by kind |
| `AlertRecipient.AllowedMeansOneRecipient` | engine/alertrecipient.go:84-140 | an allowed notification is the one asked for, at an enabled contact method of its owner; everything bundled into it has the same contact method and owner, and every alert the same service |
| `AlertRecipient.FinalCheckNeverDecides` | engine/alertrecipient.go:66-67 | for a root that is being sent, a bundle whose messages agree always contains an alert notification |
| `AlertRecipient.CyclicBundlesAgree` | engine/alertrecipient.go:59-67 | without that condition, two bundles bundled into each other agree and hold no alert |
| `PolicyCache.AddKeeps` | apikey/polcache.go:30-36 | a cache stays within its bound, holds the added key and invents nothing |
| `PolicyCache.CachesAreOrderedByRequest` | apikey/polcache.go:39-97 | after every run both caches are ordered by the last request for their keys |
| `PolicyCache.EvictionsAreLeastRecentlyUsed` | apikey/polcache.go:39-97 | in every reachable state a request evicts at most the key whose last request is the oldest, and only from a full cache |
| `PolicyCache.PolCache.Revoke` | apikey/polcache.go:39-45 | the key moves to the negative cache |
| `PolicyCache.PolCache.Get` | apikey/polcache.go:55-97 | the answer and both caches after a call, including failures of either database call |
| `PolicyCache.RunKeepsInv` | apikey/polcache.go:39-97 | every run keeps the cached policies those issued and the negative keys invalid |
| `PolicyCache.GetIsUncached` | apikey/polcache.go:55-97 | after every run, an answer without error is what an uncached fill gives at that moment |
| `PolicyCache.GetAnswersFromDatabase` | apikey/policyinfo.go:39-54 | without failures a policy is found for exactly the valid keys |
| `PolicyCache.AnswersAreCached` | apikey/polcache.go:55-97 | what each answer leaves in the caches: found and refused keys are remembered, failures are not |
| `PolicyCache.CachedKeysNeedNoFill` | apikey/polcache.go:59-84 | a refused key needs no database, a cached policy only the check |
| `PolicyCache.RevokedIsRefused` | apikey/polcache.go:39-45 | a revoked key is refused whatever the database says |
| `PolicyCache.CachesAreDisjointAndBounded` | apikey/polcache.go:30-36 | no key is in both caches and neither exceeds MaxSize |
| `PolicyCache.RefusedForever` | apikey/polcache.go:73-79 | a refused key is refused in every later call that does not fail |
| `PolicyCache.NegativeEntriesAreTrusted` | apikey/polcache.go:59-61 | with correct policies cached, the answer departs from a fill exactly on a valid key cached as invalid |
| `CycleMonitor.Cycles.constructor` | engine/cyclemonitor.go:20-26 | starts with one known ID and its open channel |
| `CycleMonitor.Cycles.NewID` | engine/cyclemonitor.go:28-38 | the shift loop drops the oldest ID and puts the new one in front |
| `CycleMonitor.Cycles.StartNextCycle` | engine/cyclemonitor.go:42-50 | returns the channel of the ID that was next |
| `CycleMonitor.Cycles.FindCycle` | engine/cyclemonitor.go:59-64 | the channel of a known ID, or the unknown ID error |
| `CycleMonitor.Cycles.NextCycleID` | engine/cyclemonitor.go:75-86 | the newest ID, which is known |
| `CycleMonitor.StepKeepsInv` | engine/cyclemonitor.go:28-72 | history, known IDs and channels stay those of the generated sequence |
| `CycleMonitor.KnownIDsAreTheLastTen` | engine/cyclemonitor.go:28-38 | in every run the known IDs are exactly the last min(10, generated) |
| `CycleMonitor.KnownForNineStarts` | engine/cyclemonitor.go:42-50 | an ID handed out is known after nine further starts and not after ten |
| `CycleMonitor.WaitTakesKnownIDs` | engine/cyclemonitor.go:59-64 | a caller waits exactly for a known ID |
| `CycleMonitor.WaitSucceedsExactly` | engine/cyclemonitor.go:66-71 | in every run a wait succeeds exactly when the cycle of its ID was finished |
| `CycleMonitor.WaitMeansWholeCycle` | engine/cyclemonitor.go:53-86 | when a wait for the ID handed out has succeeded, the next cycle was started and finished since then |
| `Paging.WalkSorts` | integrationkey/search.go:53-61 | a finished walk of a query that skips by position yields its rows once each, in order |
| `Paging.WalksAreShort` | integrationkey/search.go:60-61 | every walk has at most one page more than there are rows |
| `Paging.WalkExists` | integrationkey/search.go:53-61 | every walk can be finished |
| `Paging.SelectedIsAhead` | escalation/search.go:69-78 | a cursor selects only rows beyond it, and all of them unless the flag of a favorite was dropped |
| `Paging.KeyWalkIsComplete` | integrationkey/search.go:53-61 | a walk over the keys yields every matching key once, by lower(name) and ID |
| `Paging.NameCursorSkipsTies` | integrationkey/search.go:53-59 | a cursor without an ID also skips all rows of the same lower(name) |
| `Paging.NamelessCursorStartsOver` | integrationkey/search.go:53 | a cursor with an empty name selects the first page again |
| `Paging.PolicyWalksAreCompleteExactly` | escalation/search.go:69-90 | with the flag in the cursor, walks of every page size are complete exactly when lower(name) is unique per favorite group |
| `Paging.ResolverWalkIsCompleteExactly` | graphql2/graphqlapp/escalationpolicy.go:596-616 | with the resolver's cursor a walk is complete exactly when its first page is cut cleanly; otherwise the policy that should come next is never shown |
| `Paging.SecondFavoriteIsLost` | graphql2/graphqlapp/escalationpolicy.go:607-616 | two favorites on pages of one: there is a walk, and no walk shows the second |
| `Paging.ScanRows` | escalation/search.go:161-171 | the loop returns all rows in order, or none when one fails to scan |
| `Paging.ScanKeys` | integrationkey/search.go:190-209 | the rows read and the error, for a row that fails and a connection that breaks |
| `Paging.DeliveredExactly` | integrationkey/search.go:193-206 | the rows read are those before the break, or all |
| `Paging.KeySearchIsSound` | integrationkey/search.go:190-209 | always an error, or all rows of the query in order; no error exactly without a break and a bad row |
| `Paging.ScanPolicies` | escalation/search.go:161-173 | the same without a look at the connection's error |
| `Paging.PolicySearchIsSoundExactly` | escalation/search.go:161-173 | an error, or all rows in order, exactly when the connection does not break before the last row or a row before that fails |
| `Paging.BrokenConnectionTruncates` | escalation/search.go:161-173 | two policies and a break between them: one is returned, without an error |
| `Identifiers.ParseOfParts` | alert/dedup.go:31-45 | the first two colons separate, whatever the payload holds |
| `Identifiers.ParsedTextHasParts` | alert/dedup.go:31-45 | only such texts are parsed |
| `Identifiers.FewColonsFail` | alert/dedup.go:32-35 | texts with fewer than two colons are refused |
| `Identifiers.StoredDedupText` | alert/dedup.go:48-50 | the stored text, its version a plain decimal number |
| `Identifiers.DedupRoundTripExactly` | alert/dedup.go:31-50 | a dedup ID comes back exactly when its type has no colon |
| `Identifiers.DedupCell.Scan` | alert/dedup.go:53-72 | what is stored in the receiver, and that a failure leaves it alone |
| `Identifiers.ProviderCell.Scan` | gadb/providermessageid.go:57-82 | what is stored in the receiver, also on a failure |
| `Identifiers.ScannedOfText` | gadb/providermessageid.go:57-65 | the first colon separates; without one the text is the name |
| `Identifiers.LegacyTextsAreRead` | gadb/providermessageid.go:67-75 | what the two texts of older versions are read as |
| `Identifiers.StoredText` | gadb/providermessageid.go:38-54 | NULL exactly for incomplete IDs, and the stored text of all others |
| `Identifiers.ProviderRoundTripExactly` | gadb/providermessageid.go:39-82 | which provider message IDs come back as they were |
| `Identifiers.ParseOfTextExactly` | gadb/providermessageid.go:23-37 | which of them are read back from their String form |
| `Identifiers.StoredTextIsCanonical` | gadb/providermessageid.go:39-55 | two complete IDs share a stored text exactly when they differ by a legacy name at most |

## Left out

- HTTP handlers, middleware, GraphQL beyond the page cursors, permissions, metrics, logging and the CLI: plumbing.
- Real cryptography, PEM and JWT encoding: keys are identities, signatures are ideal, and a token's `key` header is a
  byte; `VerifyJWT` converts a JSON number to a byte, which the model has only for 0 to 255.
- Parsing of stored verification keys, which skips broken ones, is treated as lossless.
- `keyring/reencrypt.go` and `keyring/keys.go`: their correctness rests on decryption with a wrong key always failing.
- `dataloader/fetcherparam.go` and `dataloader/aggfetcherparam.go`: the grouping repeats `aggfetcher.go`, and
  `FetchOneParam` holds its mutex while it waits.
- KeyringSafety.TokensVerifyExactly: does not model the issuer, audience and other claims that `VerifyJWT` also checks.
- KeyringSafety.SignaturesOutliveRotations: does not model the time between reading the row's clock and committing.
- Integer widths: counts, rotation numbers and alert IDs are unbounded, decimal text and dedup versions are 64-bit.
- Slices that share memory (`append` into a queue or a batch) are sequences that are reassigned.
- Interleavings inside alert transactions, and the service locks that order them.
- Alert summaries, details, sources and metadata; validation of their text; the escalation state of alerts. Whether a
  duplicate was logged recently, and which alerts are on a multi-ack step, are inputs.
- The fields of queries that filter by organization or search text: paging ranges over any set of matching rows.
- Collation of names: any order of `lower(name)` will do, so nothing is proved about `lower` itself.
- Database errors, the organization check and the parsing of UUIDs behind the recipient guard are inputs.
- The libraries (`base64`, `binary`, `uuid`, `strconv`, the LRU cache) are modelled as far as the program uses them.
- `NewUserDedup`'s text clean-up, which cuts and filters Unicode text.
- A nil `cycleMonitor` (engine disabled) and the cancellation of waiting calls.
- Limits of searches and their defaults: page sizes are any positive numbers.
- Alert search pagination (`alert/search.go`) and `executioncontext`.
