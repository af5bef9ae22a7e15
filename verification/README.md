# Posthorn, verified

Posthorn accepts messages over HTTP and SMTP and hands them to a mail transport. This project
models the stateful protocols and the codecs underneath and proves what they promise:

- **Idempotency.** `Lru` is the recency-ordered cache with its eviction law. `Idempotency` is the
  response cache, as a class over heap-allocated bodies and as a value. `Gateway` is a transition
  system: any number of requests, every mutex-guarded method one atomic step, arbitrary
  interleaving, a clock that never goes back. `GatewaySafety`, `GatewayClaims`, `GatewayReplay`,
  `GatewayAnswers` and `GatewayBounds` prove properties of every run of it. `Recorder` is the recording response writer and the replay.
- **Rate limiting.** `TokenBucket` is one bucket over a list of timestamps, `RateLimit` the bounded
  map of buckets, `ClientIp` the proxy walk that picks the key.
- **SMTP ingress.** `SmtpSession` is the session as a class (one method per command) and as a
  response function; `SmtpTrace`, `SmtpReplies` and `SmtpCap` prove what every command sequence may and must
  lead to under a configuration `SmtpConfig.Validate` accepts, `SmtpLines` says which lines name which address;
  `SmtpParse` picks the text part. `SmtpRelay` follows a message from the session to the reader of its print.
- **Printed forms and their readers.** `UriEncode`, `SigV4`, `SigV4Theorems` and `SigV4Reading` (AWS Signature
  Version 4, "Create a canonical request"), `Rfc5322` (sections 2.1 and 2.2 of RFC 5322),
  `Labels` (Prometheus text exposition format 0.0.4), `Csrf`.
- **Metrics.** `Metrics` (counters), `Histograms`, `Registry`, and in `CounterHistory`,
  `HistogramHistory` and `HistogramScrape` what a scrape says about the plain history of observations.
- **Templates.** `Template` is the field walk and an evaluator for the nodes it handles,
  `Renderer` the block of fields passed through.

`Wrappers`, `Sequences`, `Text`, `Sorting` and `Numbers` hold what the program takes from its standard
library, `Transport` the message every transport is handed.

Code that updates objects is a class or a method with loops, proved equal to a function of the old
state; theorems are lemmas about those functions. Results that turned out narrower than the
documentation or the comments say:

- The recipient cap holds per transaction, not per session as `core/smtp/config.go:82-85` says: a full
  envelope sent twice takes twice the cap (`SmtpCap.TwiceTheCap`), a session takes at most the cap per
  accepted MAIL (`SmtpCap.SessionBound`), and so keeps it exactly up to one accepted MAIL
  (`SmtpCap.SessionCapIff`).
- DATA does not always judge the whole blob. At the size limit 0 it parses and sends a blob cut to one
  byte; at the largest 64-bit limit the reader's window wraps and every blob is read as empty
  (`SmtpTrace.LargestLimitReadsNothing`). The listener accepts both. `SmtpTrace.BlobJudgedWholeIff` and
  `SmtpTrace.WithinLimitDeliveredIff` give the exact conditions.
- The one-label tuple holding the empty string encodes to the empty key, which decodes to no values,
  so emitting the metric panics: `Labels.EmptyValueIsLost`, and exactly then, `CounterHistory.EmitsIff`
  and `HistogramHistory.HistogramEmitsIff`.
- Counter totals wrap at 64 bits: a scrape reports the plain sums exactly when they fit
  (`CounterHistory.PlainSumsIff`).
- A token never expires when the time to live is the longest duration, since differences of instants
  are held to that range: `Csrf.IssuedAcceptedIff`.
- The field walk misses `$.name`, a bare dot and `{{template}}` (`Template.DollarEscapesTheWalk`,
  `Template.DotEscapesTheWalk`, `Template.NestedEscapesTheWalk`). Named fields decide a template that
  reads only them, whichever way (`Template.NamesAreEnough`), and for templates of text and reads exactly
  those (`Template.StraightLineIff`).

The comment at `core/gateway/handler.go:661-663` says 2xx responses are stored; the code stores 200 and 422,
and no other 2xx is written on the endpoints concerned, so the comment is only broader than the code.

Timestamps are nanoseconds where the program counts in 64 bits and reals in the limiter. Strings of the
percent-encoder and of tokens are byte strings. Functions the program calls but this model does not
look into (MAC, base64, MIME parsing, CIDR membership, the RFC 2047 encoder, the template library's
functions, float formatting) are parameters, with what is needed of them as a precondition. Inductions are written out: lemmas that
the verifier would otherwise attempt by induction on its own carry `{:induction false}`.

## Model

| member | source | states |
|---|---|---|
| Lru.TouchKeeps | core/idempotency/cache.go:103-106 | A hit makes the key the newest in the history of uses, keeps the older keys in the order of theirs, and changes no entry |
| Lru.RemoveKeeps | core/idempotency/cache.go:110 | Removing a key removes exactly its entry, and the rest stay in the order of their last uses |
| Lru.AddKeeps | core/idempotency/cache.go:149-158 | Storing makes the key newest with its new value, leaves every other value alone, and lets go only of keys with `capacity` distinct others used since |
| Lru.AddDropsAtMostOne | core/idempotency/cache.go:149-158 | Storing drops at most one key, and none unless the key is new to a full cache |
| Lru.AddEvicts | core/idempotency/cache.go:149-158 | The key dropped had at least `capacity` distinct other keys used since its own last use |
| Lru.AddValues | core/idempotency/cache.go:149-158 | After a store the key has the new value and every other resident key its old one |
| Lru.ResidentIffRecent | core/ratelimit/ratelimit.go:101-107 | With no removals, a used key is resident if and only if fewer than `capacity` distinct other keys were used since |
| Lru.ExactAdd | core/ratelimit/ratelimit.go:101-107 | Adding keeps the residents exactly the most recently used keys |
| Idempotency.Cache.New | core/idempotency/cache.go:66-83 | A cache exists exactly for a positive capacity and time to live, and starts empty |
| Idempotency.Cache.Lookup | core/idempotency/cache.go:96-120 | Answers replay, in flight or miss as the abstract state says, drops an expired entry, promotes a hit, and hands out a fresh copy of the body |
| Idempotency.Cache.ClaimInFlight | core/idempotency/cache.go:127-141 | Claims exactly when the key is neither in flight nor has a live entry, and otherwise changes nothing but recency |
| Idempotency.Cache.Store | core/idempotency/cache.go:146-160 | The key's entry becomes a copy of the response expiring one lifetime later and the claim is released |
| Idempotency.Cache.Abandon | core/idempotency/cache.go:166-171 | Releases the claim and nothing else |
| Idempotency.Clone | core/idempotency/cache.go:146-158 | The stored body is a new array with the same bytes |
| Idempotency.LookupRepresents | core/idempotency/cache.go:96-120 | Promotion and removal on heap entries are promotion and removal on values |
| Idempotency.StoreRepresents | core/idempotency/cache.go:146-160 | Storing a heap entry is storing its value, evictions included |
| Idempotency.LookupEffects | core/idempotency/cache.go:96-120 | In terms of the entries alone: in flight exactly for a claimed key, a replay exactly for an unclaimed one with a live entry, which becomes the newest, else a miss, which leaves no entry of the key; no other key, claim or order is touched |
| Idempotency.ClaimEffects | core/idempotency/cache.go:127-141 | A claim is won exactly when the key is unclaimed and has no live entry; it changes no entry and no other claim, and a resident entry becomes the newest |
| Idempotency.StoreEffects | core/idempotency/cache.go:146-160 | The response is kept for one lifetime as the newest entry, the claim of that key alone is released, and at most one other entry goes, the oldest of a full cache |
| GatewaySafety.InvariantHolds | core/gateway/handler.go:276-318 | Every reachable state keeps the cache sound, claims exact, held entries expired, stored successes remembered and deliveries justified |
| GatewaySafety.SecondDelivery | core/gateway/handler.go:303-318 | A delivery about to happen under an already delivered key needs the earlier response stored, and expired or crowded out |
| GatewayReplay.DeliveredAtMostOnce | core/gateway/handler.go:276-318 | In every interleaving, between two deliveries under one key the first one's 200 was stored, and then expired or `capacity` distinct other keys were stored or hit since the key last was |
| GatewayReplay.InFlightBookkeeping | core/idempotency/cache.go:96-171 | In-flight keys are exactly those of requests between claim and finalizer, no two such requests share a key, and a resident entry of a held key has expired |
| GatewayReplay.LookupsAreExact | core/idempotency/cache.go:96-120 | Every lookup of every run: in flight if and only if a claim of the key was won before and not yet released; a replay is the latest response stored under the key, still alive; a miss means all stored ones expired or were crowded out |
| GatewayReplay.ClaimsAreExact | core/idempotency/cache.go:127-141 | Every claim of every run: won only if no claim of the key is open and all responses stored under it expired or were crowded out; lost only if one is open or a stored response is still alive |
| GatewayReplay.StoredIsReplayed | core/gateway/handler.go:288-296 | A stored response, a 200 or a 422, is what a later lookup replays unless it expired, was crowded out or stored over, or a claim is open |
| GatewayClaims.InFlightIff | core/idempotency/cache.go:96-102 | In every reachable state a lookup would answer in flight if and only if some request holds the key, which is when the log has a won claim of it not yet released |
| GatewayClaims.ClaimWonIff | core/idempotency/cache.go:127-141 | A request that missed gets the key if and only if no request holds it and no live entry is resident; otherwise it is answered as a conflict |
| GatewayClaims.FreeKeyIsAdmitted | core/gateway/handler.go:276-318 | Progress: after any run, a key nobody holds and with no live entry is admitted to the next request that arrives with it and claims it |
| GatewayClaims.FreeKeyIsServed | core/gateway/handler.go:276-360 | And if the limiter allows the call, the request can go on to one send, and a successful one ends with its 200 answered, stored and replayed to the next lookup |
| GatewayClaims.RetryIff | core/gateway/handler.go:755-801 | A second send may start if and only if the first failed for a transient or rate-limiting reason; a terminal failure is answered 502 at once |
| GatewayAnswers.AnswersFollow | core/gateway/handler.go:276-360 | In every run each request is answered what its events say: the replayed response, a conflict for a key in flight or a lost claim, 429 when the limiter, asked for its own API key, refuses, 502 on a terminal failure; stored is the answer itself, when it is 200 or 422, and only then |
| GatewayBounds.RequestsAccounted | core/gateway/handler.go:276-360 | Each claim is released exactly once; replays and conflicts never meet the limiter or the transport; at most two sends per request, the second only after a transient or rate-limiting failure, and none without a token; a response is stored exactly for a keyed request answered 200 or 422 |
| GatewayBounds.LimiterHolds | core/gateway/handler.go:346-360 | The verdicts logged in a run are the limiter's own on the calls in lock order |
| GatewayBounds.SendBound | core/gateway/handler.go:755-801 | In any window of any run without eviction of the key, passes are at most capacity plus refill over the span of the stamps, and their sends at most twice that |
| TokenBucket.LevelIsLeastHeadroom | core/ratelimit/ratelimit.go:108-118 | The token level is the least, over all earlier calls, of capacity plus refill since minus calls allowed since |
| TokenBucket.ExactLaw | core/ratelimit/ratelimit.go:95-118 | With non-decreasing stamps a call is allowed if and only if it fits the allowance counted from every call so far |
| TokenBucket.AnsweredAtClock | core/ratelimit/ratelimit.go:107-118 | A call stamped before the bucket's clock is answered, and leaves the bucket, as if it came at the clock |
| TokenBucket.ExactLawAnyOrder | core/ratelimit/ratelimit.go:90-118 | Whatever order the stamps come in, a call is allowed if and only if it fits the allowance counted from every call so far, on the running maximum of the stamps |
| TokenBucket.WindowLedger | core/ratelimit/ratelimit.go:108-118 | Whatever the order of stamps, tokens left plus calls allowed in a window never exceed one bucket plus the refill of the elapsed time |
| TokenBucket.WindowBound | core/ratelimit/ratelimit.go:90-118 | Calls in any order of stamps within a span are allowed at most capacity plus refill over the span |
| RateLimit.Limiter.New | core/ratelimit/ratelimit.go:62-83 | A limiter exists exactly for positive count, interval and size, with refill count per interval |
| RateLimit.Limiter.AllowAt | core/ratelimit/ratelimit.go:95-118 | Verdict and new state are the abstract limiter's: refill capped, one token taken if there is one, bucket promoted |
| RateLimit.HeldElapsedRefillsTheSame | core/ratelimit/ratelimit.go:62-112 | Holding the time between calls to the longest duration, as differences of instants are, refills no less than the time itself |
| RateLimit.RunExact | core/ratelimit/ratelimit.go:101-107 | After any run the resident keys are exactly the `maxIPs` most recently used ones |
| RateLimit.VerdictIsOwnBucket | core/ratelimit/ratelimit.go:95-118 | Every verdict is that of one independent bucket on the key's calls since it was last crowded out |
| RateLimit.LimiterExactLaw | core/ratelimit/ratelimit.go:90-118 | Whatever order the stamps come in, a call is allowed if and only if it fits the allowance counted from every call of the key since it was last crowded out, on the running maximum of their stamps |
| RateLimit.RefinesUnbounded | core/ratelimit/ratelimit.go:62-118 | As long as fewer than `maxIPs` distinct other keys come between uses, verdicts equal those of an unbounded map of buckets |
| RateLimit.WindowIsEpochSuffix | core/ratelimit/ratelimit.go:95-118 | In a window without crowding, the calls allowed are those its own bucket allows on the window's stamps |
| RateLimit.LimiterWindowBound | core/ratelimit/ratelimit.go:90-118 | The window bound for the limiter as a whole |
| Recorder.PlayIsFirstStatusAllBytes | core/gateway/handler.go:640-656 | A response is its first status (200 if a write comes first), the Content-Type set by then, and all bytes in order |
| Recorder.RecordingResponseWriter.WriteHeader | core/gateway/handler.go:640-648 | What is recorded and what the underlying writer was given stay the same response |
| Recorder.RecordingResponseWriter.Write | core/gateway/handler.go:650-658 | Likewise for bytes, with the implicit 200 |
| Recorder.FinalizeIdempotent | core/gateway/handler.go:668-679 | 200 and 422 are stored as recorded, everything else abandons the claim |
| Recorder.ReplayCachedResponse | core/gateway/handler.go:695-701 | The writer ends with exactly the cached status, Content-Type and body |
| Recorder.ReplayWritesTheSame | core/gateway/handler.go:695-701 | Replaying what was recorded produces the recorded response again |
| Recorder.StoredIsReplayed | core/idempotency/cache.go:96-160 | A lookup within the lifetime after a store answers that response |
| Recorder.ReplaySurvivesMutation | core/idempotency/cache.go:103-158 | Store, overwrite the caller's array, lookup, overwrite the answer, lookup: the replay is still the stored response |
| Recorder.Drive | core/gateway/handler.go:632-658 | Any sequence of calls on the recorder leaves record and connection with what the calls mean |
| Recorder.RecordThenReplay | core/gateway/handler.go:276-318 | A keyed request recorded, finalized and repeated within the lifetime writes its status, Content-Type and every byte again; an uncacheable one leaves only a released claim |
| ClientIp.IpInPrefixes | core/ratelimit/ratelimit.go:186-199 | True exactly when some prefix contains the address |
| ClientIp.ClientIP | core/ratelimit/ratelimit.go:142-170 | The peer unless trusted; else the rightmost non-empty untrusted forwarded entry; else the documented fallback |
| ClientIp.AttributedIsUnique | core/ratelimit/ratelimit.go:142-170 | That description determines the address |
| ClientIp.PrependingNeverMatters | core/ratelimit/ratelimit.go:142-170 | Anything a client puts in front of the forwarded list changes nothing once an untrusted entry is there |
| SmtpConfig.Validate | core/smtp/config.go:100-171 | Accepts exactly the acceptable configurations; otherwise the error is a rule the configuration breaks, and no rule checked earlier is broken, user by user included |
| SmtpSession.MatchesAllowlist | core/smtp/session.go:469-485 | True exactly when some entry admits the address: itself, its domain or any |
| SmtpSession.VerifyUser | core/smtp/session.go:263-274 | True exactly when name and password are those of one configured user |
| SmtpSession.SmtpConnection.ResetTransaction | core/smtp/session.go:427-431 | Closes the transaction and forgets sender and recipients, keeping TLS and login |
| SmtpSession.SmtpConnection.AuthRequiredAndMissing | core/smtp/session.go:167-177 | Whether the configured authentication mode is unmet |
| SmtpSession.SmtpConnection.HandleEHLO | core/smtp/session.go:139-156 | Answers 250 with the capabilities of the configuration and state, and changes neither |
| SmtpSession.SmtpConnection.HandleSTARTTLS | core/smtp/session.go:182-213 | New state and replies for every handshake outcome |
| SmtpSession.SmtpConnection.HandleAUTH | core/smtp/session.go:215-261 | New state and replies for every AUTH argument, prompt included |
| SmtpSession.SmtpConnection.HandleMAIL | core/smtp/session.go:276-299 | New state and reply, in the order the checks are made |
| SmtpSession.SmtpConnection.HandleRCPT | core/smtp/session.go:301-323 | New state and reply, in the order the checks are made |
| SmtpSession.SmtpConnection.HandleDATA | core/smtp/session.go:325-385 | Replies, the message handed over if any, and the closed transaction |
| SmtpSession.SmtpConnection.Handle | core/smtp/session.go:89-118 | The dispatched handler's effect; the loop ends at QUIT only |
| SmtpSession.SmtpConnection.Run | core/smtp/session.go:72-120 | State, replies and messages after the loop are those of the trace of the commands heard |
| SmtpSession.TraceAppend | core/smtp/session.go:72-120 | One more command extends the trace by its own event and the state by its own effect |
| SmtpTrace.PolicyKept | core/smtp/session.go:167-323 | Every command keeps the policy: an open transaction has TLS and authentication as configured, an allowlisted sender, allowed recipients, a count within the cap; a closed one has none |
| SmtpTrace.SessionAgrees | core/smtp/session.go:72-120 | In every reachable state TLS, login and envelope are what the trace of replies says, and the policy holds |
| SmtpTrace.MailAcceptedIff | core/smtp/session.go:276-299 | MAIL is accepted if and only if the trace before it meets the TLS and authentication policy and the sender is well formed and allowlisted |
| SmtpTrace.RcptAcceptedIff | core/smtp/session.go:301-323 | RCPT is accepted if and only if a transaction is open, the address is well formed and allowed, and the transaction has room under the cap |
| SmtpTrace.SentToAcceptedRecipients | core/smtp/session.go:325-385 | Each message sent goes, in order, to exactly the recipients accepted since the MAIL that opened the transaction, under the whole policy, for every size limit; its subject, reply-to and text are the parsed blob's, its from the blob's or else the envelope sender; with a positive limit short of the largest the whole blob was parsed |
| SmtpTrace.BlobJudgedWholeIff | core/smtp/session.go:337-365 | In an open transaction DATA either answers 552 or sends what the whole blob parses to, for every parser and transport, if and only if the limit is positive and not the largest 64-bit integer, or the blob fits the reader's window |
| SmtpTrace.LargestLimitReadsNothing | core/smtp/session.go:337-359 | At the largest limit a blob that parses is refused with 550 by a parser that takes anything but the empty text |
| SmtpTrace.WithinLimitDeliveredIff | core/smtp/session.go:325-385 | Every parseable blob within the limit is answered 250 and sent whole if and only if the limit is not the largest 64-bit integer |
| SmtpTrace.EhloIsHonest | core/smtp/session.go:139-156 | EHLO lists STARTTLS exactly when it would be taken, AUTH PLAIN exactly when AUTH is supported once TLS is satisfied, and a blob over the listed SIZE is refused for it |
| SmtpTrace.OtherHeadersNeverMatter | core/smtp/parse.go:34-77 | If two mail parsers differ only in headers other than From, Reply-To and Subject, such as To, Cc and Bcc, whole sessions over any commands and blobs agree reply by reply and message by message |
| SmtpTrace.RefusedChangesNothing | core/smtp/session.go:182-335 | A command refused before the 354 reply leaves TLS, login and transaction as they were |
| SmtpTrace.DataPast354Closes | core/smtp/session.go:325-385 | Any DATA past 354 ends with the transaction closed, TLS and login intact |
| SmtpTrace.EnvelopeAccepted | core/smtp/session.go:276-323 | Allowed MAIL and RCPT commands within the cap are all answered 250 |
| SmtpTrace.AllowedMailIsDelivered | core/smtp/session.go:276-385 | Followed by a parseable DATA within the limit, unless that is the largest 64-bit integer: positive replies only and exactly one message, to those recipients, field by field what the blob says |
| SmtpTrace.KnownUserLogsIn | core/smtp/session.go:215-274 | The right PLAIN credentials of a configured user always log in, in any case of the mechanism's name, with the command or after the 334 prompt |
| SmtpLines.AddressIff | core/smtp/session.go:444-463 | Exactly which texts name an address: the prefix in any case, blanks, and the address in angle brackets, whatever follows |
| SmtpLines.LineReads | core/smtp/session.go:435-441 | The text before the first space is the command, in any case, and the text after it the argument |
| SmtpLines.Words | core/smtp/session.go:89-118 | The ten command words |
| SmtpLines.MailLineAcceptedIff | core/smtp/session.go:276-299 | The line MAIL FROM:<a> is accepted if and only if the trace before it meets the policy and a is allowlisted, and a is then the sender |
| SmtpLines.RcptLineAcceptedIff | core/smtp/session.go:301-323 | The line RCPT TO:<a> is accepted if and only if a transaction is open with room and a is allowed, and a is then the last recipient |
| SmtpLines.EntryAdmits | core/smtp/session.go:469-485 | An entry *@d admits exactly the addresses of domain d, * every address, any other entry itself |
| SmtpReplies.MailReplied | core/smtp/session.go:276-299 | In every session a MAIL draws 530 exactly when the trace before it falls short of TLS and authentication, else 501 without an address, 550 for one not allowlisted, 250 otherwise |
| SmtpReplies.RcptReplied | core/smtp/session.go:301-323 | A RCPT draws 503 exactly outside a transaction, else 501 without an address, 452 without room, 550 if not allowed, 250 otherwise |
| SmtpReplies.EleventhRefused | core/smtp/config.go:82-85 | With neither cap nor recipient allowlist configured, ten recipients are accepted and the eleventh draws 452 |
| SmtpReplies.DataReplied | core/smtp/session.go:325-385 | A DATA draws 503 exactly outside a transaction with recipients, else 354 and one of 451, 552, 550 or 250, each exactly in its case, and a send is tried exactly for a blob that is read, small enough and parses to a text |
| SmtpReplies.StartTLSReplied | core/smtp/session.go:182-213 | STARTTLS draws 502 exactly when neither TLS is required nor certificates count, 503 exactly when TLS is already up, 220 otherwise |
| SmtpReplies.AuthReplied | core/smtp/session.go:215-261 | AUTH draws 530, 502, 504, 334, 535 or 235 each exactly in its case, and 235 exactly logs in the user whose name and password the credentials hold |
| SmtpReplies.LogsInIff | core/smtp/session.go:238-258 | Credentials log a user in if and only if they are an identity, the name and the password of a configured user, set apart by NULs |
| SmtpReplies.OthersReplied | core/smtp/session.go:89-118 | QUIT draws 221, an unknown command 500, EHLO, HELO, RSET and NOOP 250 |
| SmtpReplies.CertificateSession | core/smtp/session.go:167-213 | Where certificates count, a client that presents a verified one in STARTTLS may send at once |
| SmtpRelay.RelayedMessageArrives | core/smtp/parse.go:34-77 | End to end: whoever reads the text the outbound transport prints for a session's message finds, by header name, the blob's Subject, Reply-To and From, the accepted recipients in To, and the blob's text |
| SmtpCap.SessionBound | core/smtp/session.go:301-323 | In every session at most the cap of recipients is accepted per accepted MAIL |
| SmtpCap.TwiceTheCap | core/smtp/session.go:276-323 | The same good envelope sent twice is answered 250 throughout, so a full one takes twice the cap |
| SmtpCap.SessionCapIff | core/smtp/config.go:82-85 | Sessions with at most n accepted MAILs keep the cap if and only if n is at most one |
| SmtpCap.TraceSplit | core/smtp/session.go:72-120 | A session's trace is that of its first commands followed by that of the rest from the state they leave |
| SmtpParse.ReadPlainTextFromMultipart | core/smtp/parse.go:119-141 | The loop returns what the first text part holds, or nothing |
| SmtpParse.FirstTextDecides | core/smtp/parse.go:119-141 | Parts of other types are passed over; the first of type text/plain, or of none, is the body, readable or not, whatever comes after |
| SmtpParse.NoTextNoBody | core/smtp/parse.go:119-141 | Without one there is no body |
| Sorting.SortForgetsOrder | core/transport/awssigv4.go:103-108 | Two sorted lists are equal if and only if the originals are permutations of each other |
| Sorting.SortedListingIs | core/transport/awssigv4.go:125-129 | Sorting the keys of a map gives one list, whatever order they were walked in, each key once |
| UriEncode.AwsURIEncode | core/transport/awssigv4.go:191-212 | The loop computes the byte-by-byte encoding |
| UriEncode.DecodeEncode | core/transport/awssigv4.go:191-212 | Percent-decoding undoes the encoding, of paths and of query pieces |
| UriEncode.EncodeInjective | core/transport/awssigv4.go:191-212 | Different strings have different encodings |
| UriEncode.EncodedAlphabet | core/transport/awssigv4.go:191-212 | An encoded query piece holds unreserved characters and '%' only |
| UriEncode.UntouchedIff | core/transport/awssigv4.go:195-204 | A text is its own encoding if and only if it holds nothing but letters, digits, - _ . ~ and, in a path, slashes |
| UriEncode.EscapesAreUpper | core/transport/awssigv4.go:205-209 | Every percent sign of an encoding is followed by two digits of 0-9 and A-F |
| SigV4.EncodeQuery | core/transport/awssigv4.go:101-117 | The query parts in sorted order, independent of the map walk |
| SigV4.BuildHeaderMap | core/transport/awssigv4.go:121-125 | Lower-cased names to joined, trimmed values, host last, independent of the map walk |
| SigV4.WriteHeaders | core/transport/awssigv4.go:132-138 | One "name:value" line a header, in the given order |
| SigV4.CanonicalRequest | core/transport/awssigv4.go:92-150 | The canonical text and signed-headers list, independent of every map walk |
| SigV4Theorems.EncodePairInjective | core/transport/awssigv4.go:113-114 | A query part determines its key and value |
| SigV4Theorems.HeaderLinesInjective | core/transport/awssigv4.go:132-138 | The header lines determine the header map |
| SigV4Theorems.PairsDetermine | core/transport/awssigv4.go:101-117 | Two queries have the same sorted pairs if and only if each key has the same multiset of values |
| SigV4Theorems.CanonicalEqualIff | core/transport/awssigv4.go:92-150 | Two requests have equal canonical text if and only if they agree on method, path, each key's multiset of query values, lower-cased header map and body hash |
| SigV4Reading.OrderIs | core/transport/awssigv4.go:103-108 | The order sorted by is byte order: a prefix first, else the smaller byte at the first difference |
| SigV4Reading.QueryReads | core/transport/awssigv4.go:101-117 | The query line decodes to exactly its pairs, in order |
| SigV4Reading.CanonicalReads | core/transport/awssigv4.go:92-150 | The canonical text line by line: method, path or /, a query that decodes to each key's values in byte order of keys and then values, the signed headers in byte order with host and trimmed, joined values, an empty line, their names, the body hash |
| Rfc5322.ValidateNoHeaderCRLF | core/transport/smtpout.go:230-246 | Accepts exactly the messages whose header values hold no CR or LF, and names the first that does |
| Rfc5322.EncodeMIMESubject | core/transport/smtpout.go:297-312 | ASCII subjects pass, others are encoded |
| Rfc5322.WriteHeader | core/transport/smtpout.go:287-292 | Appends one header line |
| Rfc5322.BuildRFC5322 | core/transport/smtpout.go:268-283 | The text is the printed header list, in order, an empty line, and the body |
| Rfc5322.ParseHeader | core/transport/smtpout.go:287-292 | A printed header without CRLF in its value is read back, whatever follows |
| Rfc5322.ParseCutsShort | core/transport/smtpout.go:287-292 | One with CRLF in its value never is |
| Rfc5322.RoundTripIff | core/transport/smtpout.go:268-292 | A printed message reads back as its headers and body if and only if no header value holds a CRLF |
| Rfc5322.AcceptedMessageReadsBack | core/transport/smtpout.go:230-283 | Whatever validation lets through reads back as exactly its headers and body, whatever the body holds |
| Rfc5322.AcceptedMessageShows | core/transport/smtpout.go:230-312 | A reader of the sent text finds by name From, To, Subject, Date, Reply-To only if not empty, and the fixed MIME headers, no other header, and the body |
| Rfc5322.RecipientsReadBack | core/transport/smtpout.go:271 | The To header splits at its commas into the recipients, in order |
| Numbers.ParseFormat | core/csrf/csrf.go:55 | A printed 64-bit integer parses back and holds no dot |
| Numbers.FormatIsPlain | core/csrf/csrf.go:55 | Printed without a plus sign or leading zeros |
| Numbers.WrapAdd | core/metrics/metrics.go:127-129 | 64-bit addition of increments agrees with the plain sum to 64 bits |
| Csrf.HexDecodeIff | core/csrf/csrf.go:80-83 | The texts that decode to given bytes are their hexadecimal form in any mix of cases |
| Csrf.HexRoundTrip | core/csrf/csrf.go:56 | Encoding bytes and decoding them back |
| Csrf.VerdictIff | core/csrf/csrf.go:65-99 | Which strings are malformed, wrongly signed or accepted, each exactly |
| Csrf.AcceptedIff | core/csrf/csrf.go:65-99 | Over all strings: accepted if and only if a decimal timestamp, a dot and the hexadecimal MAC of that timestamp's text, not too old; when it is missing or malformed, exactly |
| Csrf.IssuedAcceptedIff | core/csrf/csrf.go:54-99 | An issued token is accepted if and only if its whole-second age is at most the time to live, or that is the longest duration; else it is expired |
| Csrf.SignatureBindsTimestamp | core/csrf/csrf.go:84-87 | A signature moved to another timestamp is accepted only on a MAC collision |
| Labels.DecodeEncodeIff | core/metrics/metrics.go:287-296 | A tuple survives its key if and only if no value holds a NUL and it is not the single empty string |
| Labels.KeyLabelsSomeIff | core/metrics/metrics.go:300-306 | Any tuple that fits the label names, NULs or not, can be rendered from its key if and only if it is not the single empty string |
| Labels.EmptyValueIsLost | core/metrics/metrics.go:291-294 | The single empty string comes back as no values |
| Labels.EncodeInjective | core/metrics/metrics.go:287-289 | NUL-free tuples of one length have the same key if and only if they are equal |
| Labels.KeyLabelsIff | core/metrics/metrics.go:300-306 | A NUL-free one is rendered as itself |
| Labels.EscapeLabelValue | core/metrics/metrics.go:349-369 | The fast path and the loop both give the escaped text |
| Labels.UnescapeEscape | core/metrics/metrics.go:349-369 | An escaped value up to its quote reads back, whatever follows |
| Labels.RenderLabelsWithValues | core/metrics/metrics.go:310-327 | The label block, or the panic exactly when values are missing |
| Labels.RenderLabels | core/metrics/metrics.go:300-306 | The block of the values a key decodes to |
| Labels.RenderLabelsWithExtra | core/metrics/metrics.go:331-345 | The same block as rendering the list with one more label |
| Labels.ParseRendered | core/metrics/metrics.go:310-345 | A rendered block reads back as exactly its labels, whatever the values hold |
| Metrics.Counter.Add | core/metrics/metrics.go:119-130 | Accepts exactly matching tuples and non-negative deltas, and the map then holds the totals of the longer history |
| Metrics.Counter.Inc | core/metrics/metrics.go:113-115 | Adds one |
| Metrics.Counter.Emit | core/metrics/metrics.go:133-159 | HELP and TYPE lines, then one sample a key in sorted order, independent of the map walk; the panic exactly when a key has too few values |
| CounterHistory.TotalsAgree | core/metrics/metrics.go:119-130 | A tuple has a series exactly when observed, holding the sum of its own increments to 64 bits |
| CounterHistory.EmitsIff | core/metrics/metrics.go:133-159 | A counter can be emitted, whatever its tuples hold, if and only if the single empty value was never observed |
| CounterHistory.ScrapeReads | core/metrics/metrics.go:147-158 | Reading the emitted text gives the map back in key order |
| CounterHistory.CounterDeclares | core/metrics/metrics.go:147-152 | The first two lines are the HELP line, whose text unescapes to the help, and the TYPE line saying counter |
| CounterHistory.ScrapeReportsHistory | core/metrics/metrics.go:119-159 | The scrape of any history has exactly one sample per observed tuple, with its labels and its own sum |
| CounterHistory.PlainSumsIff | core/metrics/metrics.go:119-159 | A scrape reports every observed tuple's plain sum if and only if all those sums fit in 64 bits |
| Histograms.NewHistogram | core/metrics/metrics.go:185-199 | Made exactly when the bounds are strictly ascending |
| Histograms.Series.Record | core/metrics/metrics.go:218-224 | Count, sum and every bucket whose bound is not below the value are bumped in place |
| Histograms.Histogram.SeriesFor | core/metrics/metrics.go:213-217 | The key's series, a fresh zero one on first use, apart from all others |
| Histograms.Histogram.RecordIn | core/metrics/metrics.go:218-224 | Recording changes the one series and no other |
| Histograms.Histogram.Observe | core/metrics/metrics.go:206-225 | After a matching observation the series are those of the longer history |
| Histograms.Histogram.Snapshot | core/metrics/metrics.go:229-243 | The copy has every series as it is |
| Histograms.Histogram.Emit | core/metrics/metrics.go:228-281 | Buckets, +Inf, sum and count of each key in sorted order, independent of the map walk; the panic exactly when a key has too few values |
| HistogramHistory.SeriesAgree | core/metrics/metrics.go:206-225 | A tuple's buckets count exactly its own observations up to each bound, its count and sum all of them |
| HistogramHistory.BucketsGrow | core/metrics/metrics.go:185-225 | Buckets are non-decreasing in their bound and never exceed the count |
| HistogramHistory.HistogramEmitsIff | core/metrics/metrics.go:228-281 | A histogram can be emitted, whatever its tuples hold, if and only if the single empty value was never observed |
| HistogramScrape.SeriesBuckets | core/metrics/metrics.go:255-276 | The bucket samples among a series' lines are exactly its counts with their bounds, +Inf last |
| HistogramScrape.SeriesCount | core/metrics/metrics.go:272-276 | And the count sample is exactly its count |
| HistogramScrape.HistogramReads | core/metrics/metrics.go:228-281 | Scraping the emitted text gives every series back, in key order, and nothing else |
| HistogramScrape.ScrapeReportsObservations | core/metrics/metrics.go:206-281 | After any history the scraped bucket and count samples are exactly those of the observed tuples, each counting the tuple's own observations up to its bound or in all, and no labels come twice |
| HistogramScrape.ScrapeReportsSums | core/metrics/metrics.go:271-275 | The sum lines are exactly one for each observed tuple, showing the sum of its own observations |
| HistogramScrape.HistogramDeclares | core/metrics/metrics.go:246-251 | The HELP line, whose text unescapes to the help, and the TYPE line saying histogram |
| Registry.Registry.Register | core/metrics/metrics.go:51-60 | Appends exactly when the name is free, so names stay distinct |
| Registry.Registry.Emit | core/metrics/metrics.go:64-81 | The metrics' texts in name order |
| Registry.ScrapeInNameOrder | core/metrics/metrics.go:68-72 | Each metric once, in strictly increasing name order |
| Registry.ScrapeShowsEach | core/metrics/metrics.go:64-81 | A metric's whole text stands between those of the metrics named before it and those named after it |
| Registry.ScrapeForgetsRegistrationOrder | core/metrics/metrics.go:51-81 | The scrape does not depend on the order of registration |
| Template.CollectFieldNames | core/template/template.go:140-195 | The shared set gains exactly the first identifiers of the field references reached |
| Template.FieldsAreReferences | core/template/template.go:122-195 | A name is collected if and only if some field reference at or below the node starts with it |
| Template.CollectAll | core/template/template.go:149-151 | The same over a list of nodes |
| Template.EvalSame | core/template/template.go:130-195 | An operand safe for some names has the same value on two forms that agree on them, and that value is never the form |
| Template.WalkSame | core/template/template.go:130-195 | So does every safe node render, with dot the form or a value taken from it |
| Template.NamesAreEnough | core/template/template.go:75-88 | Two forms that agree on some names render alike, errors included, every template that reads from the form, by dot, by `$` or for a nested template, no other field and never the whole form |
| Template.OrdinaryIsSafe | core/template/template.go:130-195 | A template without `$`, nested templates or a bare dot that is the form reads nothing but the fields the walk collects |
| Template.FieldsAreEnough | core/template/template.go:130-195 | So the collected fields decide the text of such a template |
| Template.StraightLineIff | core/template/template.go:130-195 | Names decide a template of text and reads by dot or `$` if and only if it reads no other field, or always fails |
| Template.LineRenders | core/template/template.go:201-208 | A template of text and reads renders to its text with each field in place, or always fails |
| Template.BlocksRender | core/template/template.go:220-225 | On one field, an if or with takes its first list exactly when the field is true, the with on the field itself, and a range shows each item in turn or takes its else list |
| Template.RootReadsIff | core/template/template.go:140-195 | `{{$.a.b}}` is decided by exactly the sets of names that hold its first field, collected or reserved, and by all if it has more than one |
| Template.DollarEscapesTheWalk | core/template/template.go:140-195 | `$.name` collects nothing yet renders a field |
| Template.DotEscapesTheWalk | core/template/template.go:140-195 | A bare dot collects nothing yet shows the form |
| Template.NestedEscapesTheWalk | core/template/template.go:140-195 | A nested template's argument is not collected, yet its text is decided by exactly the sets of names that hold it |
| Template.DeadBranchIsDecided | core/template/template.go:171-176 | An unsafe read in a branch no form reaches does no harm |
| Renderer.FlattenForm | core/template/template.go:273-286 | Every key with values, joined; the one-value shortcut agrees |
| Renderer.ExtraFields | core/template/template.go:252-268 | Exactly the unnamed keys whose joined value is not blank |
| Renderer.Renderer.constructor | core/template/template.go:75-88 | Named fields are the non-empty reserved names and what both templates read |
| Renderer.Renderer.RenderSubject | core/template/template.go:201-208 | The subject template on the flattened form |
| Renderer.Renderer.RenderBody | core/template/template.go:220-248 | The body text, and the sorted block if there is anything to pass through |
| Renderer.AppendBlock | core/template/template.go:227-248 | One newline-ended body, the heading, one line a field in sorted order |
| Renderer.BlockIsPartition | core/template/template.go:220-268 | Each form key is named, or blank, or listed exactly once; the list is strictly increasing and holds nothing else |
| Renderer.RenderedBodyReads | core/template/template.go:220-248 | The body is the template's text whole, then, if any unnamed field is not blank, a block that reads back line by line as exactly those fields in byte order of their keys; otherwise the text alone |
| Renderer.ValuesReadBack | core/template/template.go:273-286 | A field holds its one value, or its values listed with commas, which read back in order |
| Renderer.UnnamedFieldIsPassedThrough | core/template/template.go:20-24 | For templates safe for the named fields, reserved names included, changing an unnamed field changes neither text, and the field is listed if and only if not blank |
| Renderer.NamedFieldsDecide | core/template/template.go:75-88 | For such templates two forms that agree on the named fields render the same subject and body text |

## Left out

- Sockets, TLS handshakes, certificates, accept loops, signals, timeouts and configuration loading: a handshake is an outcome with or without a verified chain, a read an outcome of the command, and writes to the peer never fail.
- The HTTP transports, their registry and `sendWithRetry`'s waiting: Send is an oracle with the four error classes, a retry may be given up at any time.
- Handler panics: the deferred finalizer of a panicking request is not modelled, so a panic after a successful Send is outside `GatewayReplay.DeliveredAtMostOnce`.
- The form-mode half of `ServeHTTP`, API-key authentication, `ValidateKey` and the checks between the limiter and Send: a request may be refused there with any response.
- Libraries: SHA-256 and HMAC, base64, RFC 2047 encoding, MIME and mail parsing, CIDR membership, `net/url` and the `text/template` parser; sorting and splitting are written out and proved.
- Floating point: tokens, rates and histogram values are reals, and float formatting is a parameter whose text is not read back: the sum and bound texts are those of the right numbers, as that parameter prints them.
- RateLimit.Limiter.AllowAt: the program keeps a pointer to each bucket in its map; here the bucket is a value written back under its key, with the same recency.
- Histograms.Series.Record: counts are unbounded, since 2^63 observations are out of reach; counter totals wrap at 64 bits as in the program.
- Registry.Registry.Emit: a metric is its name and the text it emits at that scrape; errors of the writer are left out everywhere.
- Metrics.Counter.Emit: escaping the HELP text is a function here, its loop being the label one without the quote.
- Template.NamesAreEnough: one way for whole templates. An unsafe read is harmless in a branch no form reaches (`Template.DeadBranchIsDecided`) or beside an operand that always fails, and which branches a form reaches is up to the library's functions, which are parameters. `Template.StraightLineIff` is exact for templates of text and field reads.
- Template: variables other than `$`, `break`, `continue` and comments are not parse-tree nodes of the model, and `and`/`or` evaluate all their operands.
- SigV4Theorems.CanonicalEqualIff: for requests whose parts hold no newline and whose header names hold no ':' and stay distinct in lower case, as HTTP has it; strings.ToLower is exact on ASCII names.
- SmtpSession.SmtpConnection.Handle: what is written to the client is kept as reply codes; the text after a code is left out, but for the capabilities EHLO lists.
- Rfc5322.BuildRFC5322: dot-stuffing and line-ending translation happen later, in the library's DATA writer; the address-only envelope forms come from `net/mail`.
- `credentialScope`, the signing-key chain and the Authorization header: concatenations around the MAC that add no further property.
- `RequiredFields`, `Validation`, `Negotiate`, honeypot and origin checks, JSON coercion: single filters that would only add easy members.
- The storage and retry queue of `spec/04-v2-storage.md`: there is no code for it.
