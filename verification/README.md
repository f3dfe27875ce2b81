# Verified models of gitfed's algorithmic cores

gitfed is a federated Git forge written in Go. This project models the parts of it that are
algorithms or protocols rather than plumbing, and proves what they promise over every input, every
run and every interleaving:

* **Rate limiter** (`Rounding`, `TokenBucket`, `BucketRuns`, `BucketStore`, `RetryPromise`, `Limiter`, `LimiterRuns`).
  A token bucket per key, kept by a script in Redis and called by HTTP middleware. Quantities are
  reals; the explicit roundings (six decimals, three decimals, floor, ceiling) are modelled as such.
  The closed form, the window bounds, optimality and the expiry theorem hold for *every* clock: refill
  is counted by forward movements only, as the script does. The retry promise and the per-minute bound
  need a nondecreasing clock. The script and the middleware are modelled for every configured rate; the
  theorems about admission need a positive one. A capacity of zero is allowed wherever the statement does
  not say otherwise.
* **Multibase and Base58** (`Bytes`, `Numerals`, `Base58`, `Multibase`). The digit loop, the leading-zero
  loops, the reversal in place, and the key strings built on them. A Go string is represented by the
  runes that ranging over it yields, so the truncation of a rune to its low byte is part of the model.
* **pkt-line framing** (`PktLine`, `PktStream`, `PktRuns`). Encoder, slice decoder, and the stream
  iterator with its shared buffer over a reader that splits its input anywhere (the "pkt-line Format"
  section of Git's gitprotocol-common).
* **Sessions** (`SessionStores`, `SessionCalls`, `SessionService`, `SessionMachine`, `SessionResults`,
  `SessionAtomic`, `SessionCache`, `SessionFinality`, `SessionWitnesses`). A table that is the truth and an
  expiring cache beside it. Each
  operation is a sequence of single store calls; the service methods run them without interruption,
  the machine interleaves them with other requests, crashes, evictions and time. Every store call may
  be applied, be rejected, or be applied with the acknowledgement lost.
* **Repositories** (`Paths`, `RepoPaths`, `SecurePath`, `RepoCreation`, `RepoMachine`). Name
  sanitising, lexical path containment, and the creation of a row and a directory with compensation,
  again both uninterrupted and interleaved.

Where a component changes state step by step, its model is a class or a loop proved against a
specification function (`Script`, `Encoding`, `NextStep`, `RunCall`), and the properties are lemmas about
that function. For each of them some of these lemmas fix its result without naming it: effects of whole
operations for every way their calls can end (`ScriptEffect`, `CreateEffect`, `RefreshEffect`, `RevokeEffect`,
`DeleteEffect`), the number a Base58 string stands for (`EncodingMeans`), and the laws by which strings are
cleaned and sanitised (`CleanCancels`, `RemoveDotsLeftmost`).

## What the code does differently from what it says

* Waiting exactly the advertised `Retry-After` seconds is not always enough: the wait is printed with
  three decimals first. `AdvertisedWait` gives the exact condition and `AdvertisedWaitCanFallShort` an
  input. Without capacity no promise is kept (`NoCapacityNoPromise`).
* `Base58Decode` accepts runes outside the alphabet whose low byte is in it (`WideRuneIsAccepted`).
* `EncodeLine` frames empty data although the format has no such frame; the decoder and the iterator
  both reject it (`EmptyLineIsRejected`). `Next` reports 4 consumed bytes for data packets.
* A peer that announces more than the iterator's buffer holds, with a length from fff1 to ffff, makes it
  slice outside its buffer, where the decoder returns a packet (`OversizeBreaksIterator`;
  `IteratorRefinesDecoder` shows that nothing else does).
* An input that ends right behind a length header makes `Next` return `io.EOF` as its error, though the frame
  is cut; everywhere else inside a frame it is `io.ErrUnexpectedEOF` (`CutStream`).
* A configured rate of zero does not refuse anything: the script gives its key an infinite lifetime and
  fails, and the middleware lets the request through (`ZeroRateIsUnlimited`, `Limiter.Serve`).
* The table has no session expiry, so "invalid or expired refresh token" never means expired while the
  row exists. A refresh token outlives its row by up to the cache lifetime after `RevokeAll` or a lost
  cache delete (`StalenessIsReached`), and after a plain race too, in which the client was told that the
  session is revoked (`RaceIsReachable`). `StepAgreesIff` and `RunAgreesIff` say exactly which steps of an
  interleaving part cache and table, be it only between the two deletes of a revocation;
  `StepStrandsIff` and `StrandedHasCause` exactly which ones leave a token live that no revocation is
  about to forget; `DeletionIsFinalIff` exactly when a deleted session's token can be accepted again.
* The hard delete behind the creation rollback is the soft delete again, and a directory, once
  initialised, makes its name unusable for good (`NameIsTakenForever`).
* Valid names that differ can share a directory (`NamesCanCollide`); `secureRepoPath` rejects every
  path when the base is the file system root (`LexicalContainment`).

## Model

| member | source | states |
|---|---|---|
| Rounding.RoundHalfEven | internal/ratelimit/limiter.go:37-42 | printing a float to a fixed number of decimals gives the nearest one, the even one on a tie |
| Rounding.RoundingIsMonotone | internal/ratelimit/limiter.go:37-42 | printing never reorders two values and leaves integers alone |
| TokenBucket.FullBeforeExpiry | internal/ratelimit/rate_limit.lua:23-40 | one second before its key may disappear an unused bucket is full again |
| BucketRuns.LevelIsLeastBound | internal/ratelimit/rate_limit.lua:23-37 | for every schedule and clock, the level of a bucket is attained by, and bounded by, the window bounds capacity + refill since i - admissions since i |
| BucketRuns.ClosedForm | internal/ratelimit/rate_limit.lua:18-37 | exact closed form of the tokens at request n as a minimum over all windows, and admission exactly when that minimum is at least one |
| BucketRuns.EarnedIsElapsed | internal/ratelimit/rate_limit.lua:23-25 | with a nondecreasing clock the refill credited between two requests is that of the elapsed time |
| BucketRuns.KeepsBucketIffWindows | internal/ratelimit/rate_limit.lua:23-37 | an arbitrary schedule never overdraws a bucket of its own if and only if every window stays within capacity plus refill |
| BucketRuns.BucketObeysLimit | internal/ratelimit/rate_limit.lua:23-37 | the script's own schedule obeys both forms of the limit on every clock |
| BucketRuns.WindowBound | internal/ratelimit/rate_limit.lua:23-37 | with a nondecreasing clock every window [t_i, t_j] admits at most burst plus the refill of its length |
| BucketRuns.LevelInRange | internal/ratelimit/rate_limit.lua:23-33 | on any clock the tokens stay between zero and the capacity, and the stored time is the last request's |
| BucketRuns.GreedyIsOptimal | internal/ratelimit/rate_limit.lua:23-37 | in every prefix the script admits at least as many requests as any schedule whose windows obey the limit |
| BucketRuns.GreedyBeatsEveryBucket | internal/ratelimit/rate_limit.lua:23-37 | the same against every policy that keeps a token bucket of its own |
| BucketRuns.RemainingIsExact | internal/ratelimit/rate_limit.lua:42 | the remaining count returned is the exact number of further requests admitted at the same instant |
| BucketRuns.NoRefillBackwards | internal/ratelimit/rate_limit.lua:23-25 | a clock that stands still or goes back refills nothing |
| BucketRuns.FirstBurstIsAdmitted | internal/ratelimit/rate_limit.lua:18-33 | on every clock the first burst requests are admitted |
| BucketStore.Redis.RateLimit | internal/ratelimit/rate_limit.lua:9-42 | for every rate, the script maps the expiring keyspace and a request to the specified keyspace, admission, remaining count and printed wait, or to its failure |
| BucketStore.ScriptEffect | internal/ratelimit/rate_limit.lua:9-42 | for every rate, clock and keyspace: tokens found and left, reply, stored bucket and deadline in elementary terms, other keys untouched |
| BucketStore.ExpiredMeansFull | internal/ratelimit/rate_limit.lua:18-21 | a bucket idle until its key may have gone is full, which is what a missing key is read as |
| BucketStore.ExpiryIsUnobservable | internal/ratelimit/rate_limit.lua:18-40 | on every interleaving of requests to any keys, with clocks that drift by up to a second between uses, each reply is that of a never-expiring bucket fed that key's requests alone |
| BucketStore.StoreDecidesAsBucket | internal/ratelimit/rate_limit.lua:18-40 | the decisions the expiring store takes for one key are the decisions of the single bucket, so every run theorem transfers |
| BucketStore.CloseClocksAgree | internal/ratelimit/rate_limit.lua:39-40 | clocks within half a second of each other meet the drift condition of the expiry theorem |
| RetryPromise.StaysDue | internal/ratelimit/rate_limit.lua:30-37 | after a denial, denied requests before the promised instant keep the bucket due at exactly that instant |
| RetryPromise.RetryPromiseHolds | internal/ratelimit/rate_limit.lua:30-42 | after a denial at t with wait r, requests before t + r are denied and promised the same instant, the first at or after it is admitted |
| RetryPromise.NoCapacityNoPromise | internal/ratelimit/rate_limit.lua:30-35 | with burst zero every request is denied with a positive wait, so the promise needs burst at least one |
| RetryPromise.RetryAfterIsClose | internal/ratelimit/middleware.go:80-85 | the Retry-After seconds S satisfy r - 0.0005 <= S <= r + 1.0005 |
| RetryPromise.RetryAfterCoversWait | internal/ratelimit/middleware.go:80-85 | the seconds cover the exact wait if and only if its fraction is not rounded away by three decimals |
| RetryPromise.AdvertisedWait | internal/ratelimit/middleware.go:80-85 | a caller that waits exactly the advertised seconds is admitted under that same condition, and always finds at least 1 - 0.0005 * rate tokens |
| RetryPromise.AdvertisedWaitCanFallShort | internal/ratelimit/middleware.go:80-85 | a concrete run in which waiting the advertised second is not enough |
| RetryPromise.PrintedRateIsClose | internal/ratelimit/middleware.go:25 | after the division by 60 and printing, sixty seconds of refill differ from the configured rate by at most 0.00003, and the rate has the configured sign |
| RetryPromise.PerMinuteBound | internal/ratelimit/middleware.go:24-43 | in any 60 seconds of a nondecreasing clock at most burst + ratePerMin requests are admitted, both roundings included |
| Limiter.PrintedTimeIsMonotone | internal/ratelimit/limiter.go:35-42 | printing the timestamp to microseconds keeps a nondecreasing clock nondecreasing |
| Limiter.PrintedTimeIsClose | internal/ratelimit/limiter.go:35-41 | the printed timestamp is the Unix time in seconds to the nearest microsecond |
| Limiter.Limiter.Allow | internal/ratelimit/limiter.go:34-51 | for every configured rate, the verdict is the script's for the printed rate and time, an error whenever the call or the script fails, and the keyspace changes exactly when the script was applied |
| Limiter.Limiter.WriteLimited | internal/ratelimit/middleware.go:80-85 | the least positive whole number of seconds covering the duration |
| Limiter.Limiter.Serve | internal/ratelimit/middleware.go:26-44 | for every configured rate, requests pass without headers when the limiter fails, pass with headers when admitted, and are refused with the advertised seconds otherwise |
| Limiter.ZeroRateIsUnlimited | internal/ratelimit/rate_limit.lua:39-40 | the script fails if and only if the configured rate is zero, whatever the keyspace, the burst and the request |
| Limiter.StoreAdmitsAtMost | internal/ratelimit/middleware.go:24-43 | end to end: over every interleaving of keys on the expiring store, the requests on one key admitted in any 60 seconds are at most burst + ratePerMin |
| LimiterRuns.AdmitsAtMost | internal/ratelimit/middleware.go:24-43 | in the callers' nanoseconds and over every interleaving of keys, at most burst + ratePerMin requests on a key are admitted in a minute, all roundings included, for rates up to 59 million |
| LimiterRuns.AdmitsFirst | internal/ratelimit/middleware.go:24-43 | the first configured burst requests on a key are admitted, whatever the clock and the other keys do |
| LimiterRuns.AdmitsSpaced | internal/ratelimit/middleware.go:24-43 | a request that comes a minute divided by the configured rate after the one before it, and the roundings later, is admitted |
| Numerals.ValueOfDigits | pkg/multibase/multibase.go:130-133 | the digits of a number have that number as their value |
| Numerals.ValueIsPowerSum | pkg/multibase/multibase.go:90-99 | the value of a numeral is the sum of its digits times the powers of the base |
| Numerals.DigitsOfValue | pkg/multibase/multibase.go:90-99 | a numeral without leading zeros is reproduced from its value |
| Numerals.PaddedDigits | pkg/multibase/multibase.go:101-104 | every numeral is its leading zeros followed by the digits of its value |
| Numerals.DigitCount | pkg/multibase/multibase.go:130-133 | a number below the power base^length has at most length digits |
| Base58.IndexOf | pkg/multibase/multibase.go:251-258 | the first position of the byte, or -1 when it does not occur |
| Base58.AlphabetRoundTrip | pkg/multibase/multibase.go:69 | looking up the d-th alphabet character gives d back, the alphabet is ASCII, and '1' is the zero |
| Base58.AlphabetIsOrdered | pkg/multibase/multibase.go:69 | the alphabet is the letters and digits without 0, I, O and l, in ASCII order |
| Base58.EncodingMeans | pkg/multibase/multibase.go:109-146 | the encoding is the one alphabet string with a '1' for each leading zero byte whose sum of powers of 58 is the bytes' sum of powers of 256 |
| Base58.DecodingMeans | pkg/multibase/multibase.go:73-105 | a string decodes to exactly the bytes with a leading zero for each leading '1' and the same number, or fails as an invalid character |
| Base58.DecodeAfterEncode | pkg/multibase/multibase.go:73-146 | decoding the encoding of any byte string returns it |
| Base58.EncodeAfterDecode | pkg/multibase/multibase.go:73-146 | encoding the decoding of any string over the alphabet returns it |
| Base58.CanonicalIffInAlphabet | pkg/multibase/multibase.go:90-99 | a string survives decoding and encoding if and only if all its runes are in the alphabet |
| Base58.Bijection | pkg/multibase/multibase.go:73-146 | encoding to an alphabet string and decoding it are the same relation |
| Base58.AcceptedIffLowBytes | pkg/multibase/multibase.go:90-94 | on every string decoding succeeds if and only if the low byte of each rune is an alphabet character |
| Base58.AsciiRejection | pkg/multibase/multibase.go:90-94 | on ASCII input decoding fails exactly when a character is outside the alphabet |
| Base58.WideRuneIsAccepted | pkg/multibase/multibase.go:90-91 | a rune outside the alphabet is accepted through its low byte and is not canonical |
| Base58.LengthBound | pkg/multibase/multibase.go:107-146 | k leading zero bytes and m further ones encode to at most k + ceil(11 * m / 8) characters |
| Base58.ReverseInPlace | pkg/multibase/multibase.go:140-143 | the array ends as the reverse of what it was |
| Base58.Base58Encode | pkg/multibase/multibase.go:109-146 | the loops compute the specified encoding for every byte string |
| Base58.Base58Decode | pkg/multibase/multibase.go:73-105 | the loops compute the specified decoding, or reject, for every rune string |
| Multibase.SchemeIff | pkg/multibase/multibase.go:150-198 | a string decodes in a scheme if and only if it is that scheme's prefix and a payload its decoder accepts; which error otherwise |
| Multibase.ExtractionInvertsPrefix | pkg/multibase/multibase.go:202-213 | a buffer yields a key if and only if it is the two prefix bytes followed by that key of 32 bytes |
| Multibase.KeyIff | pkg/multibase/multibase.go:202-249 | in any scheme a string yields a key if and only if it decodes to the prefixed key, and otherwise which error |
| Multibase.KeyStringsAreCanonical | pkg/multibase/multibase.go:239-249 | for every 32-byte key exactly one ASCII string starting with 'z' decodes to it |
| Multibase.KeyStringRoundTrip | pkg/multibase/multibase.go:150-164 | that string decodes to the key, is ASCII and has at most 48 characters |
| Multibase.KeyStringsAreInjective | pkg/multibase/multibase.go:239-249 | keys with the same canonical string are equal |
| PktLine.HexRoundTrip | pkg/pktline/pktline.go:73 | a printed length header parses back to the length |
| PktLine.HexDigits | pkg/pktline/pktline.go:73-114 | the sixteen digits of either case, printed in lower case, and no other byte |
| PktLine.HeaderIsNumeral | pkg/pktline/pktline.go:73 | a header is the base-16 numeral of its number, most significant digit first |
| PktLine.SmallHeader | pkg/pktline/pktline.go:116-127 | a header below ten has exactly one form |
| PktLine.ParsedHeader | pkg/pktline/pktline.go:111-114 | a header that parses is the printed length up to the case of its letters |
| PktLine.Encode | pkg/pktline/pktline.go:63-76 | a fresh buffer holding header and payload exactly for 1 to 65516 bytes, and which error otherwise |
| PktLine.EncodeLine | pkg/pktline/pktline.go:79-96 | the sink receives the whole frame or, on a failure, a proper prefix of it; empty data is framed |
| PktLine.EncodeFlush | pkg/pktline/pktline.go:99-102 | the sink receives the four flush bytes, or a prefix on failure |
| PktLine.LineRoundTrip | pkg/pktline/pktline.go:63-138 | a framed payload followed by anything decodes to itself with its full length if and only if it is not empty |
| PktLine.DecodeFails | pkg/pktline/pktline.go:106-132 | exactly which inputs the decoder rejects, and with which error |
| PktLine.DecodedFrame | pkg/pktline/pktline.go:106-138 | what a decoded packet says about the input: kind, header, payload and consumed length determine the bytes up to letter case |
| PktStream.Reader.ReadFull | pkg/pktline/pktline.go:154 | however the reader splits and reports its end, the range is filled from the input, or all that is left is delivered with the matching error |
| PktStream.PktLineStream.Next | pkg/pktline/pktline.go:152-194 | result, remaining bytes and whole buffer depend on the input alone |
| PktRuns.Drain | pkg/pktline/pktline_test.go:171-215 | a consumer calling Next until it ends sees exactly the items and the ending the input determines |
| PktRuns.NextOfFrame | pkg/pktline/pktline.go:165-193 | the next packet of an input that starts with a frame is that frame, and takes exactly its bytes |
| PktRuns.StreamRoundTrip | pkg/pktline/pktline.go:63-194 | for every list of frames the iterator returns exactly their types and payloads, then a clean end |
| PktRuns.FixedWires | pkg/pktline/pktline.go:99-123 | the three fixed frames are 0000, 0001 and 0002 on the wire |
| PktRuns.EndIff | pkg/pktline/pktline.go:152-163 | a reading is the clean end if and only if the input is used up and the reader reports the end of the file |
| PktRuns.StreamEnds | pkg/pktline/pktline.go:152-163 | for every list of frames and every way the reader ends, the frames are returned and then the clean end or the reader's failure |
| PktRuns.CutStream | pkg/pktline/pktline.go:152-187 | an input cut inside a frame returns the frames before it and then exactly which failure, never a clean end |
| PktRuns.UniqueFraming | pkg/pktline/pktline.go:63-194 | the concatenated wire form determines the list of frames |
| PktRuns.NextMatchesDecode | pkg/pktline/pktline.go:106-194 | one Next against one Decode: same packet and bytes taken, same failure up to names, and an out-of-range slice exactly for an oversize header |
| PktRuns.NextAnswers | pkg/pktline/pktline.go:152-194 | for every way the reader ends, exactly which answer one Next gives for each answer of Decode |
| PktRuns.IteratorRefinesDecoder | pkg/pktline/pktline.go:106-194 | whole streams: same items and same ending, cleanly exactly when nothing remains, at most length/4 packets; an oversize header, and nothing else, breaks the iterator |
| PktRuns.EmptyLineIsRejected | pkg/pktline/pktline.go:79-194 | the frame of empty data is the same error to decoder and iterator, whatever follows it |
| PktRuns.OversizeBreaksIterator | pkg/pktline/pktline.go:185 | a complete packet with header fff1 that the decoder returns makes the iterator slice outside its buffer |
| PktRuns.PayloadLifetime | pkg/pktline/pktline.go:140-144 | a payload is intact after the next frame exactly when the two frames agree where they overlap behind the header |
| SessionStores.KeyNamesAreDistinct | internal/store/redis.go:49-69 | access and refresh keys of any tokens have distinct names |
| SessionStores.PGStore.Create | internal/modules/session/store.go:25-32 | a row is inserted exactly when its unique columns are free and the call is applied |
| SessionStores.PGStore.DeleteByRefreshToken | internal/modules/session/store.go:45-54 | which row disappears and which error is returned for each way the two statements can end |
| SessionService.Service.Create | internal/modules/session/service.go:25-59 | both stores and the reply after every combination of call outcomes |
| SessionService.Service.ValidateAccess | internal/modules/session/service.go:62-68 | the user of a live access entry, the invalid-token error in every other case |
| SessionService.Service.Refresh | internal/modules/session/service.go:76-105 | both stores and the reply, over the fast and the slow path, after every combination of call outcomes |
| SessionService.Service.Revoke | internal/modules/session/service.go:108-116 | both stores and the reply after every combination of call outcomes |
| SessionService.Service.RevokeAll | internal/modules/session/service.go:119-121 | the user's rows are deleted and the cache is not touched |
| SessionMachine.EveryStateInv | internal/modules/session/service.go:25-121 | the invariant binding tables, cache, requests in flight and history holds in every state of every interleaving |
| SessionMachine.SomeLimit | internal/modules/session/service.go:25-121 | every run has a longest request, so results that need a limit on it lose no run |
| SessionResults.RefreshProvenance | internal/modules/session/service.go:41-95 | every cached refresh entry has, or had, a session row with its token and user |
| SessionResults.AccessProvenance | internal/modules/session/service.go:47-104 | every cached access entry was written by a creation for its user or a refresh with a token bound to its user, and expires exactly its lifetime after that write |
| SessionResults.OneUserPerToken | internal/modules/session/service.go:76-95 | no refresh token resolves to two users in any two states of a run |
| SessionResults.BoundedStaleness | internal/modules/session/service.go:76-121 | in every interleaving, after a row is deleted at T its token stops working by T + limit + 7 days and its access tokens by T + 2 * limit + 7 days + 15 minutes, limit being the longest time a request takes |
| SessionAtomic.BurstIsRunCall | internal/modules/session/service.go:25-121 | a request of the machine that is not interrupted does what the service method does |
| SessionAtomic.AtomicStaleness | internal/modules/session/service.go:76-121 | with uninterrupted operations no Refresh succeeds from T + 7 days on and no access token for it validates from T + 7 days + 15 minutes on |
| SessionCache.CreateEffect | internal/modules/session/service.go:41-58 | exactly which of the three writes happened for each way the calls can end, and when a pair is issued |
| SessionCache.CreationSucceedsIff | internal/modules/session/service.go:41-58 | when no call fails a session is issued if and only if its token and id are new, and then both tokens work; otherwise nothing changes |
| SessionCache.RefreshEffect | internal/modules/session/service.go:76-105 | what a refresh resolves to, writes and answers, over both paths and all failures |
| SessionCache.RefreshIsTransparent | internal/modules/session/service.go:76-105 | while cache and table agree, a refresh accepts the same tokens for the same users as a lookup in the table alone |
| SessionCache.RevokeEffect | internal/modules/session/service.go:108-116 | rows, cache and answer of a revocation for every way its calls can end |
| SessionCache.RevokeRemovesOne | internal/modules/session/service.go:108-116 | when no call fails one session leaves both stores and nothing else changes |
| SessionCache.RevokeAllEffect | internal/modules/session/service.go:119-121 | exactly the user's rows go, and the answer is success if and only if the delete was acknowledged |
| SessionCache.RevokeAgreesIff | internal/modules/session/service.go:108-116 | a revocation keeps the agreement if and only if it does not lose the delete of a live cache entry |
| SessionCache.RevokeAllAgreesIff | internal/modules/session/service.go:119-121 | RevokeAll keeps the agreement if and only if nothing was deleted or the user has no live cache entry |
| SessionCache.CacheAgreesWithTable | internal/modules/session/service.go:41-116 | over every run without RevokeAll and lost cache deletes the live refresh cache is contained in the table |
| SessionCache.SessionLifecycle | internal/modules/session/service.go:25-116 | with nothing in between, an issued pair works for exactly its lifetime, a later refresh renews it, and a refresh right after a revocation is rejected |
| SessionCache.StepAgreesIff | internal/modules/session/service.go:41-121 | a step of any interleaving keeps the agreement if and only if it is not an applied call that caches a token without its user's row, or deletes the row of a token live in the cache |
| SessionCache.RunAgreesIff | internal/modules/session/service.go:25-121 | cache and table agree throughout a run of any interleaving if and only if none of its steps is such a call |
| SessionFinality.CreationSucceeds | internal/modules/session/service.go:25-59 | in every state of every interleaving a creation with a new token and id is issued, and its tokens work at once |
| SessionFinality.RenewsUntilDeleted | internal/modules/session/service.go:76-105 | in every interleaving, whatever requests, failures, evictions and expiry came before, a refresh renews a session whose row was there and has not been deleted since |
| SessionFinality.FinalIsInvalid | internal/modules/session/service.go:76-116 | once a token has no row and no live cache entry, whether deleted, evicted or expired, and no request in flight will write it, it is rejected in every later state of every interleaving |
| SessionFinality.DeletionIsFinalIff | internal/modules/session/service.go:41-121 | after its row was deleted, a token is never accepted again in any continuation if and only if it is not live in the cache and no creation or refresh in flight is still to cache it |
| SessionFinality.RefusedInTime | internal/modules/session/service.go:76-121 | in every interleaving, limit and 7 days after its row was deleted a refresh token is refused, limit being the longest time a request takes |
| SessionFinality.StepStrandsIff | internal/modules/session/service.go:41-121 | a step makes a token live without a row and without a pending cache delete if and only if it is RevokeAll, a table delete of its row that is unacknowledged or made for another token, the refusal or crash of its cache delete, or a late cache write |
| SessionFinality.StrandedHasCause | internal/modules/session/service.go:25-121 | in every free run each such token was stranded by such a step and has been since, so a revocation that succeeds strands nothing between its two deletes |
| SessionWitnesses.StalenessIsReached | internal/modules/session/service.go:119-121 | the bounds for uninterrupted operations, 7 days and 15 minutes more, are attained without any failing call |
| SessionWitnesses.StalenessIsAttained | internal/modules/session/service.go:76-121 | for every limit a run without failing calls attains the bounds for interleaved requests, to the second |
| SessionWitnesses.RaceIsReachable | internal/modules/session/service.go:81-116 | in a run where every call succeeds a session is issued, then revoked with success, and its token is live in the cache at the end, filled by a refresh that had read the row |
| Paths.SplitOfJoin | internal/modules/git/service.go:37-43 | joining components with slashes and splitting again gives them back |
| Paths.StackOfShow | internal/api/http/http.go:240 | printing normal components and cleaning the result gives them back |
| Paths.CleanKeepsStack | internal/api/http/http.go:240 | cleaning keeps the components and is idempotent |
| Paths.CleanCancels | internal/api/http/http.go:240 | a component followed by ".." is as good as absent, wherever it stands |
| Paths.CleanDropsNoise | internal/api/http/http.go:240 | empty and "." components are as good as absent |
| Paths.CleanDropsFront | internal/api/http/http.go:240 | the same at the start of a path, where ".." cannot leave the root |
| Paths.NormalIsClean | internal/api/http/http.go:240 | paths without such components are left alone |
| Paths.StackOfJoin | internal/modules/git/service.go:200 | the components of a joined path are the directory's, continued by the second path |
| RepoPaths.SanitizeRepoPath | internal/modules/git/service.go:30-35 | the three reassignments compute the sanitised path, which has no ".." and no slash at either end |
| RepoPaths.BuildRepoPath | internal/modules/git/service.go:37-43 | the base followed by each sanitised component, joined by slashes |
| RepoPaths.SanitizedIsSound | internal/modules/git/service.go:30-35 | for every string no ".." and no slash at either end is left |
| RepoPaths.SanitizedIffClean | internal/modules/git/service.go:30-35 | the fixed points are exactly the strings with those properties, and sanitising twice is sanitising once |
| RepoPaths.RemoveDotsLeftmost | internal/modules/git/service.go:32 | the leftmost ".." is removed, then those of what follows it |
| RepoPaths.SanitizedStrips | internal/modules/git/service.go:30-35 | for every string, besides the ".." only slashes at the ends are removed |
| RepoPaths.ValidNameIff | internal/modules/git/service.go:21-28 | the valid names by the characters they may contain |
| RepoPaths.RepoPathIsContained | internal/modules/git/service.go:199-201 | for every name the repository path is the root's components followed by proper ones, so at or below the root |
| RepoPaths.ValidNameIsComponent | internal/modules/git/service.go:21-28 | a valid name becomes exactly one proper path component |
| RepoPaths.RepoPathOfName | internal/modules/git/service.go:199-201 | below a clean absolute directory a valid name's path is that directory, a slash and the name without ".." |
| RepoPaths.SharedPathIff | internal/modules/git/service.go:199-201 | two valid names share a directory if and only if they agree after removing ".." |
| RepoPaths.RepoPathIsInjective | internal/modules/git/service.go:199-201 | valid names without ".." have distinct directories |
| RepoPaths.NamesCanCollide | internal/modules/git/service.go:21-35 | two different valid names with one directory |
| SecurePath.DepthOfResolve | internal/api/http/http.go:240-243 | cleaning a relative path keeps as many components as its running depth, and begins with ".." exactly when that depth was negative somewhere |
| SecurePath.EscapesIff | internal/api/http/http.go:240-243 | the three tests on the cleaned string reject exactly the paths that leave, or end at, their start |
| SecurePath.InsideIff | internal/api/http/http.go:259-261 | the prefix test holds below every base but the root |
| SecurePath.InsideIffPrefix | internal/api/http/http.go:259-266 | on clean absolute paths the prefix test is the prefix relation on components, except at the root |
| SecurePath.RewritingChangesNothing | internal/api/http/http.go:235-273 | whatever the links, a component followed by "..", an empty one and "." change neither the decision nor the path |
| SecurePath.RewritingTheFront | internal/api/http/http.go:235-273 | the same at the start of the path |
| SecurePath.LeavingIsRefused | internal/api/http/http.go:236-243 | absolute paths, empty ones and paths that begin by leaving are refused whatever follows |
| SecurePath.PlainPathIsAppended | internal/api/http/http.go:245-273 | a path of plain components is accepted as the base, a slash and the path |
| SecurePath.PlainBase | internal/api/http/http.go:245 | a plain base is taken as it is when absolute, and below the working directory when relative |
| SecurePath.LexicalContainment | internal/api/http/http.go:235-273 | success exactly for nonempty relative paths whose depth never goes negative and ends positive, below a base other than the root; the result is the base's components followed by the cleaned ones |
| SecurePath.Containment | internal/api/http/http.go:235-273 | with links that resolve in any way: success exactly for paths that stay inside lexically, whose base exists and whose target is missing or really at or below the base's |
| RepoCreation.DeletingAgainSucceeds | internal/modules/git/store.go:38-47 | a row marked as deleted is still found: deleting it again changes nothing and answers success again exactly when the calls succeed |
| RepoCreation.CreateEffect | internal/api/http/repository_presenter.go:72-108 | rows, directories and answer of a creation for every way its calls can end; Created exactly for a new row on a free path whose calls succeed |
| RepoCreation.DeleteEffect | internal/api/http/repository_presenter.go:145-170 | rows and answer of a deletion for every way its calls can end |
| RepoCreation.Backend.InitDirectory | internal/modules/git/service.go:63-89 | a directory is initialised only for a valid name, and at most once per path |
| RepoCreation.Backend.Delete | internal/modules/git/store.go:122-129 | the hard delete only marks the row as deleted |
| RepoCreation.RepositoryPresenter.Create | internal/api/http/repository_presenter.go:46-109 | table, directories and answer after every combination of call outcomes, rollbacks included |
| RepoCreation.RepositoryPresenter.Delete | internal/api/http/repository_presenter.go:132-171 | table and answer after every combination of call outcomes |
| RepoMachine.EveryStateInv | internal/api/http/repository_presenter.go:72-168 | the invariant binding rows, directories, requests and lost creations holds in every state of every interleaving |
| RepoMachine.BurstIsRunCall | internal/api/http/repository_presenter.go:72-168 | a request of the machine that is not interrupted does what the presenter does |
| RepoMachine.CreationIsConsistent | internal/api/http/repository_presenter.go:72-108 | every active row whose creation is over and was not lost owns a directory its own request initialised, and no two share one even when their names sanitise alike |
| RepoMachine.DirectoryIsForever | internal/modules/git/service.go:83-86 | a directory keeps the row it was initialised for |
| RepoMachine.NameIsTakenForever | internal/api/http/repository_presenter.go:91-105 | after a directory was initialised no other row is ever settled on its path |
| RepoMachine.LostRowHasCause | internal/api/http/repository_presenter.go:72-106 | an active row that is not being created and does not own its directory goes back to an unacknowledged insertion, a crash, or a refused hard delete after a refused soft delete of the same request |
| RepoMachine.OwnsIffInitialised | internal/modules/git/service.go:63-89 | in every state of every interleaving a row owns its directory if and only if a step of its own creation initialised it on a free path |
| RepoMachine.LostRowIsReachable | internal/api/http/repository_presenter.go:91-106 | a run in which the directory and both rollback deletes are refused ends with an active row that owns no directory |
| RepoMachine.CreatedIsKept | internal/api/http/repository_presenter.go:91-108 | from the answer Created on, the row owns its directory in every later state of every interleaving |

## Left out

- Floating point: the limiter is over reals with its explicit roundings; the 17-digit strings in which
  Redis keeps tokens are not modelled.
- Negative bursts.
- Redis commands other than by their effect; that EXPIRE refuses an infinite lifetime is taken from it.
- Redis, PostgreSQL, HTTP, JSON, cookies, logging and configuration: stores are maps whose calls may
  fail, with and without effect; clocks, generated tokens and identifiers are parameters that the
  results assume fresh where they say so.
- Early eviction of rate limit keys by a Redis under memory pressure.
- Keys of the rate limiter: the client address and user extraction in the middleware.
- Base58.BytesOf: the standard library's big integers and their byte conversion are taken as integer
  arithmetic.
- Multibase.Decode: leaves the hexadecimal and base64 schemes to a parameter, the library's decoders.
- Strings that are not valid UTF-8.
- SecurePath.Containment: what symbolic links resolve to is a parameter, as it depends on the file system, and
  the file system does not change during the check; Windows separators.
- Deleting a user together with its sessions, session identifiers beyond their uniqueness, TOTP.
- Input length checks, JSON decoding, authentication and the listing of repositories; the conflict
  answer for an existing repository, which the row store never reports.
- Reading, cloning and pushing repositories, and what go-git writes into a directory.
- Organisations, users, single sign-on, TLS, Ed25519 keys and zlib: thin calls or library code.
