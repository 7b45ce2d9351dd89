# ZEVRA server: a verified model

This project models the stateful core of the ZEVRA chat server in Dafny 4.11 and proves what it
is meant to guarantee: that an honest SRP login always succeeds, that the message log, its preview, its pages
and its Redis cache agree under concurrency, and that the protocols for delivery, direct channels, membership,
calls, reactions, rate limits and presence keep their invariants over every run.

How the system is modelled:

- Postgres is a set of tables of committed rows. Where a property is about interleaved transactions
  (`MessageLog`, `DirectChannels`, `Reactions`), every SQL statement is a step, a statement sees the committed rows
  plus its own transaction's writes, locks are held to commit, and a transaction may abort at any point.
  Elsewhere a statement or a transaction is one atomic step.
- Redis is keys with deadlines; a key is gone at or after its deadline. Redis is available.
- User and call ids are opaque texts; the empty text stands for one that is not a UUID. Time, random values, generated ids, hashes (SHA-256, `hashtext`), case folding, UTF-8 and JSON are parameters, so
  every theorem holds for all of them. One clock is shared by the server and Redis.
- "In every interleaving" is a lemma over all finite sequences of enabled steps, so it covers every
  state on the way. Beside what every run keeps, there is for each of these machines a law that reads the state off the
  run itself, so that a step that did nothing, or something else, would break it. Services that are used one call at a time are classes whose methods are proved
  against functions of the old state.

Files, by module: `Options`, `ChannelKinds`, `Selections` (shared types); `ModularArithmetic`, `Hex`, `Srp`, `Login`
(SRP-6a); `MessageLog` and `MessageTrace` (send and delete transactions), `History` (pages), `MessageCache`, `CacheRuns`
and `CacheTrace` (the Redis list), `ReadWatermark`; `SortedSets` (Redis sorted sets), `DeliveryQueue` and
`DeliveryTrace`, `Registries`; `RateLimit`; `LikeEscape`; `DirectChannels`; `Membership`; `Calls`; `Reactions`.

Where the code and its own documentation differ, the model follows the code:

- API.md says big integers are left-padded to 256 bytes when hashed. `bigintToBuffer` does that only up to 512 hex
  digits: `Hex.BufferRoundTripIff` gives the exact condition. An `A` of up to 1024 digits is accepted, so longer
  inputs do occur: `Srp.LongEphemeralAccepted` and, at A = 2^2048, `Srp.ShortestTruncated`, where the last digit is lost.
- API.md says the pending queue is scored by sequence number; the code scores by `createdAt`.
- M1 follows section 3 of RFC 2945 but without H(username), as the code computes it. The modulus is a parameter
  (any odd number above 1 of at most 512 hex digits, with g = 2); the constant in the source is such a number.
- The cache branch promises "the newest page". Under concurrency it can lag behind the table:
  `CacheRuns.CachedPageMayLag` shows a run, `CacheRuns.CachedPageIsNewestIff` says exactly for which list and table
  the newest page is served.

## Model

| member | source | states |
|---|---|---|
| `Hex.PrintParse` | src/modules/auth/srp-state.service.ts:42-61 | Hex text printed with any left padding parses back to the number: v in the users table, b and B in Redis, B and A on the wire survive. |
| `Hex.BytesHexRoundTrip` | src/modules/auth/srp.service.ts:46-48 | Decoding the hex text of any byte buffer gives the buffer. |
| `Hex.DecodingStops` | src/modules/auth/srp.service.ts:148-165 | Decoding stops at the first pair that is not two hex digits. |
| `Hex.DigitAlphabet` | src/modules/auth/srp.service.ts:68-71 | Digits print as 0-9a-f, A-F are read like a-f, and nothing else is a digit. |
| `Hex.BufferRoundTripIff` | src/modules/auth/srp.service.ts:41-48 | The buffer encoding of n decodes to n if and only if n has at most 512 hex digits or an even number of them, otherwise to n / 16; it is 256 bytes that decode to n if and only if n has at most 512 digits; its length in every case. |
| `Srp.ModPow` | src/modules/auth/srp.service.ts:28-39 | The square-and-multiply loop ends and returns base^e mod m, for every integer base (negative ones too), e >= 0 and m > 1. |
| `Srp.GenerateServerEphemeral` | src/modules/auth/srp.service.ts:108-114 | B is (k v + g^b) mod N with k = H(N, g). |
| `Srp.XorLoop` | src/modules/auth/srp.service.ts:156-159 | The loop fills the buffer with the bytewise exclusive or of the two digests. |
| `Srp.XorByteBits` | src/modules/auth/srp.service.ts:156-159 | A bit of the exclusive or is set exactly when it is set in one of the two bytes. |
| `Srp.VerifyClientProof` | src/modules/auth/srp.service.ts:125-177 | Valid if and only if A mod N is not 0 and M1 is 64 hex digits, in either case, of the expected proof; then K and M2 are the server's; otherwise nothing is revealed. |
| `Srp.SecretsAgree` | src/modules/auth/srp.service.ts:141-145 | For all secrets x, a, b and all k, u: the client's (B - k g^x)^(a + u x) mod N equals the server's (A v^u)^b mod N. |
| `Srp.HonestEphemeralAccepted` | src/modules/auth/srp.service.ts:68-74 | Every honest A passes the check: it is hex, short enough, and never 0 mod N because N is odd. |
| `Srp.EphemeralAcceptedIff` | src/modules/auth/srp.service.ts:68-74 | A number in any hex spelling is accepted as A exactly when it is no multiple of N and its text has at most 1024 characters. |
| `Srp.LongEphemeralAccepted` | src/modules/auth/srp.service.ts:41-74 | For 512 <= k < 1024 the server accepts A = 16^k, which does not fit 256 bytes; for even k its encoding decodes to A / 16. |
| `Srp.ShortestTruncated` | src/modules/auth/srp.service.ts:41-74 | One such input: A = 2^2048 is accepted for every group and encoded as 2^2044. |
| `Srp.HonestProofAccepted` | src/modules/auth/srp.service.ts:125-177 | The proof of an honest client, computed by its own formulas, is accepted, and the server's M2 is the one it expects. |
| `Srp.ProofAcceptedIff` | src/modules/auth/srp.service.ts:125-177 | For an honest A exactly one M1 is accepted, in either case of its digits: the one computed by the client that knows the password. |
| `Login.SrpStateService.Set` | src/modules/auth/srp-state.service.ts:42-49 | Stores b and B as hex text for 120 s under the username and touches no other username. |
| `Login.SrpStateService.Consume` | src/modules/auth/srp-state.service.ts:52-66 | Returns the state if it is unexpired and well formed, and deletes the key in every case. |
| `Login.TakenIsLastSet` | src/modules/auth/srp-state.service.ts:42-66 | For every sequence of operations by any users, a take returns the state of the last operation on that username if that was a login start less than 120 s ago, nothing if it was older or a take; with no such operation the store answers as before. |
| `Login.HandshakeSingleUse` | src/modules/auth/srp-state.service.ts:19-66 | Whatever other users do in between, a stored handshake comes back intact within 120 s and not after, and only once until a new login starts for that username. |
| `Login.AuthService.Register` | src/modules/auth/auth.service.ts:43-108 | Registers if and only if username and email are free; stores the hex text of g^x mod N with x = SHA256(salt + password). |
| `Login.AuthService.LoginStart` | src/modules/auth/auth.service.ts:117-151 | Answers with the account's salt and a B for its verifier, or a decoy's, and stores the handshake, without a user id for a decoy. |
| `Login.AuthService.LoginFinish` | src/modules/auth/auth.service.ts:155-234 | Logs in if and only if there is a live handshake, an acceptable A, the same active account and the right M1; always consumes the handshake. |
| `Login.LoginCompleteness` | src/modules/auth/auth.service.ts:155-234 | Completeness of the whole login on text: for every password, salt, a and b, with other users' logins in between, finishing within 120 s succeeds and returns the M2 the client computes. |
| `Login.LoginSucceedsIff` | src/modules/auth/auth.service.ts:155-234 | With an honest A, a login succeeds if and only if it finishes within 120 s, the name still belongs to the same active account, and M1 is the one computed from its password. |
| `Login.DecoyNeverLogsIn` | src/modules/auth/auth.service.ts:117-183 | A handshake started for an unknown or inactive name never logs anyone in, whoever has registered the name since. |
| `MessageLog.PreviewIsNewest` | src/modules/messages/messages.service.ts:402-440 | In every interleaving of send and delete transactions, with aborts, every committed state has lastMessageId and lastMessageAt of the newest undeleted message, or null if there is none. |
| `MessageLog.SequenceNumbersContiguous` | src/modules/messages/messages.service.ts:158-212 | In every interleaving the committed sequence numbers are exactly 1..n, one message each, and no insert ever hits the unique index, so the retry branch is never taken. |
| `MessageLog.RowsInOrder` | src/modules/messages/messages.service.ts:250-254 | The committed rows list in sequence order, each exactly once, which is the form pages are read from. |
| `MessageLog.NeverDeadlocks` | src/modules/messages/messages.service.ts:168-201 | Whenever a send or delete is open, some open one can execute its next statement: the message lock and the channel lock never form a cycle. |
| `MessageTrace.TableIsWhatCommitted` | src/modules/messages/messages.service.ts:168-201 | After any run the table holds exactly the messages inserted by the sends that committed, with their dates; one is deleted exactly if a delete of it committed. |
| `MessageTrace.CommitWrites` | src/modules/messages/messages.service.ts:171-201 | In any run a commit either adds the one message its transaction inserted, undeleted, under the next number, or marks the one its transaction deletes; every other row stays as it is. |
| `MessageTrace.SendCompletes` | src/modules/messages/messages.service.ts:158-201 | Whenever the channel row is free, a send can run to its commit: one new row and the preview on it. |
| `MessageTrace.DeleteCompletes` | src/modules/messages/messages.service.ts:402-440 | Whenever the channel row and the message are free, a delete can run to its commit and marks exactly that message. |
| `History.DbPageIsRun` | src/modules/messages/messages.service.ts:279-325 | A database page is one run of consecutive rows in ascending order, placed by cursor and mode; hasMore and nextCursor say exactly what lies beyond it. |
| `History.DbPageShows` | src/modules/messages/messages.service.ts:279-381 | A database page spelled out: the first rows above or the last rows below the cursor, as many as the limit allows; every field of each row, nothing of the content of a deleted one; exactly its reactions, in table order. |
| `History.FollowBeforeComplete` | src/modules/messages/messages.service.ts:256-325 | From any cursor c, also one outside the log, following nextCursor backwards ends and yields the rows below c that exist exactly once while the log grows. |
| `History.BackwardPagingComplete` | src/modules/messages/messages.service.ts:256-325 | Reading back from the newest page ends and yields every message that existed at the first request exactly once, whatever is sent or deleted between pages and whatever the limits. |
| `History.ForwardPagingContiguous` | src/modules/messages/messages.service.ts:248-325 | 'since' paging from any c yields c+1, c+2, … without gap or repeat (a c outside the log counts as its nearest end), makes progress with every page, and has reached the end of the log when it stops. |
| `History.CatchUpReads` | src/modules/messages/messages.service.ts:248-325 | The same place by place: item i of what a client that catches up has read is row start + i + 1. |
| `MessageCache.RedisCache.CacheMessage` | src/redis/redis-cache.service.ts:17-31 | Appends to the unexpired list, keeps the newest 50 and renews the 24 h TTL. |
| `MessageCache.RedisCache.GetRecentMessages` | src/redis/redis-cache.service.ts:34-43 | Returns the newest `limit` entries of the unexpired list, in insertion order; the whole list for limit 0, as LRANGE does. |
| `MessageCache.RedisCache.InvalidateMessages` | src/redis/redis-cache.service.ts:45-53 | Empties the list. |
| `MessageCache.SortPermutes` | src/modules/messages/messages.service.ts:335-335 | Sorting the cached entries by sequence number loses and invents none. |
| `MessageCache.GetCachedPage` | src/modules/messages/messages.service.ts:331-357 | Serves a page exactly when the newest `limit` entries, sorted, are consecutive, and empties the list exactly when it finds a broken run. |
| `MessageCache.IsContiguous` | src/modules/messages/messages.service.ts:336-347 | The scan finds out whether the numbers are consecutive. |
| `MessageCache.GetMessages` | src/modules/messages/messages.service.ts:256-325 | Refuses non-members; uses the cache only for an uncursored, non-'since' request of at most 50, and the database otherwise; the list is emptied exactly when the cache was asked and held a broken run. On either branch every message carries exactly the table's reactions to it, none if it is deleted. |
| `CacheRuns.CachedPageIsDbPage` | src/modules/messages/messages.service.ts:274-357 | In every run of serial sends, deletes, renames and expiries, a page served from the cache is the page the database would return: messages, order, reactions, hasMore and nextCursor; a payload may differ only in its sender's name, and only if a rename of that sender followed the send of that message. |
| `CacheRuns.CachedPageLeavesNoGap` | src/modules/messages/messages.service.ts:219-226 | With pushes delayed, reordered or lost, a cached page is one consecutive run of rows, each as it is or as it was before its deletion, under its sender's present name unless the sender was renamed after that send had read it; following its cursor yields exactly all older rows. |
| `CacheRuns.CachedPageIsNewestIff` | src/modules/messages/messages.service.ts:327-357 | In every such run, the cache serves the messages, hasMore and nextCursor of the newest database page if and only if the last `limit` entries of the list bear the newest `limit` committed numbers. |
| `CacheRuns.CachedPageMayLag` | src/modules/messages/messages.service.ts:219-226 | For any two messages, a run after which the cache serves the first although the newest database page is the second. |
| `CacheTrace.CacheServesIff` | src/redis/redis-cache.service.ts:17-53 | After any serial run the cache serves a page of `limit` messages exactly when limit is at most 50, that many were sent since the last delete with no pause of a day, and the last one less than a day ago. |
| `CacheTrace.ServedTable` | src/modules/messages/messages.service.ts:402-440 | After any serial run the table holds the rows sent, in order, each as sent or erased if it was deleted, and every user has the name last given. |
| `CacheTrace.CommittedTable` | src/modules/messages/messages.service.ts:171-201 | The same of every interleaving, read off the commits. |
| `CacheTrace.CacheChanges` | src/redis/redis-cache.service.ts:17-53 | In every interleaving a push puts the message its send committed behind the newest 49 entries, a drop empties the list, and nothing else touches it. |
| `ReadWatermark.WatermarkNeverFalls` | src/modules/channels/channels.service.ts:240-291 | Over any stretch of any interleaving of sends, joins, leaves and two-step markReads, no membership's watermark moves backwards. |
| `ReadWatermark.FinishedReadReachedTarget` | src/modules/channels/channels.service.ts:257-272 | A finished markRead leaves the watermark at or past its target, even when it skipped its UPDATE on a stale read. |
| `ReadWatermark.AdvancedIffRaised` | src/modules/channels/channels.service.ts:257-290 | `advanced` is true exactly when this call's own UPDATE raised the watermark, and then the watermark is the target message; otherwise no membership changed. |
| `ReadWatermark.WatermarkIsHighestRead` | src/modules/channels/channels.service.ts:240-291 | In every interleaving a watermark is exactly the highest number its member has sent or finished marking as read. |
| `RateLimit.RedisCounter.Eval` | src/common/rate-limit/redis-rate-limiter.ts:8-16 | The script counts one hit, starting a new window on an absent, expired or TTL-less key. |
| `RateLimit.RedisCounter.Hit` | src/common/rate-limit/redis-rate-limiter.ts:38-60 | Allowed exactly when the count is within the limit; the window is at least 1 ms. |
| `RateLimit.RedisCounter.CheckRateLimit` | src/shared/rate-limit/rate-limit.service.ts:40-60 | Allowed, remaining and reset time from the same counter. |
| `RateLimit.ReplyTtlIsTruthful` | src/common/rate-limit/redis-rate-limiter.ts:8-16 | The reported TTL is positive and exact: however often the key is hit before then, the counter counts every hit and is gone exactly that long after the reply. |
| `RateLimit.AtMostTwiceTheLimit` | src/common/rate-limit/redis-rate-limiter.ts:8-16 | For every timed trace of hits and lost TTLs, at most 2 L hits are allowed in any closed interval of one window's length. |
| `RateLimit.TwiceTheLimitIsReached` | src/common/rate-limit/redis-rate-limiter.ts:8-16 | The bound is met, for every window and limit, by two bursts one window apart. |
| `RateLimit.WindowAllowsExactlyLimit` | src/shared/rate-limit/rate-limit.service.ts:19-60 | A window allows exactly its first L hits, however long a lost and repaired TTL makes it last. |
| `RateLimit.WindowLastsNominally` | src/shared/rate-limit/rate-limit.service.ts:19-27 | No event within the nominal window length finds the counter expired. |
| `RateLimit.LostTtlIsRepaired` | src/common/rate-limit/redis-rate-limiter.ts:8-16 | A counter that lost its TTL keeps its count until the next hit, which is counted on top and starts a whole window. |
| `LikeEscape.SearchMatchesLiterally` | src/modules/users/users.service.ts:8-10 | For all q and s, '%' + escapeLike(q) + '%' matches s under LIKE if and only if q occurs in s literally. |
| `LikeEscape.SearchPatternWellFormed` | src/modules/users/users.service.ts:61-74 | No query produces a pattern that ends in a lone escape character. |
| `LikeEscape.UnescapedUnderscore` | src/modules/users/users.service.ts:8-10 | Without escaping, a search for an underscore would match every name but the empty one. |
| `LikeEscape.UnderscoresCount` | src/modules/users/users.service.ts:61-74 | In the pattern language, n underscores match exactly the strings of length n. |
| `LikeEscape.PlainMatchesItself` | src/modules/users/users.service.ts:61-74 | In the pattern language, a pattern without metacharacters matches itself only. |
| `LikeEscape.LoneBackslashDangles` | src/modules/users/users.service.ts:8-10 | What the database rejects is a pattern that ends in a lone backslash. |
| `LikeEscape.IlikeSearchMatchesLiterally` | src/modules/users/users.service.ts:61-74 | The same for ILIKE, for every case folding that keeps the three metacharacters: a match is a place from which the name spells the query up to case. |
| `DeliveryQueue.PendingStore.AddPendingMessage` | src/redis/redis-session.service.ts:142-158 | Adds the text to the set of every listed user, in one step, and renews the seven-day TTL. |
| `DeliveryQueue.PendingStore.PopPendingMessages` | src/redis/redis-session.service.ts:164-189 | Returns the first `limit` entries in score order (all for limit 0, as ZRANGE does), hands out exactly those that parse, each once and in order, removes exactly those read and reports how many are left. |
| `DeliveryQueue.AllParsed` | src/redis/redis-session.service.ts:174-183 | If every text of a batch parses, the pop hands out one message for each, in its place. |
| `SortedSets.LexLessIff` | src/redis/redis-session.service.ts:164-173 | Entries of one score stand in dictionary order of their texts, as in Redis. |
| `DeliveryQueue.DrainIsComplete` | src/redis/redis-session.service.ts:164-189 | One consumer with nothing arriving gets every text once, in score order, and `remaining` is 0 exactly in the last batch. |
| `DeliveryQueue.DrainHandsOut` | src/redis/redis-session.service.ts:164-189 | So the pops of one consumer hand out every pending message that parses, each once, in score order. |
| `DeliveryTrace.NothingIsLost` | src/shared/queues/message-delivery.job.ts:18-28 | In every interleaving of jobs, run once or more, and two-step pops by any number of consumers: once the job of a broadcast has run, every member but the sender was connected, or the message is pending, or a pop handed it out, or it was last queued at least seven days ago. |
| `DeliveryTrace.NothingIsInvented` | src/redis/redis-session.service.ts:160-189 | Whatever is pending for a user or was handed out to them had been queued for them by a job of a broadcast they had to be queued for. |
| `DeliveryTrace.RemovedIsGone` | src/redis/redis-session.service.ts:170-189 | What a pop has read and removed is not pending, unless it was queued again. |
| `DeliveryTrace.PendingExpires` | src/redis/redis-session.service.ts:142-158 | Nothing is pending for a user once seven days have passed without anything being queued for them. |
| `DeliveryTrace.PendingInDateOrder` | src/redis/redis-session.service.ts:142-158 | What is pending stands in the order of the messages' dates, or of the time of the job for a message without one. |
| `DirectChannels.NoDuplicateDirect` | src/modules/channels/channels.service.ts:125-155 | In every interleaving of createDirect by either user, with aborts, members leaving and colliding lock hashes, no pair of users ever shares two DIRECT channels. |
| `DirectChannels.CreateReturnsExisting` | src/modules/channels/channels.service.ts:135-153 | Over whole runs: a create for a pair that has a DIRECT channel at its lookup replies, whenever it commits, with that channel and not created; otherwise with a DIRECT channel of the two that did not exist at the lookup, created. |
| `DirectChannels.CommitAnswers` | src/modules/channels/channels.service.ts:144-173 | A commit claims creation exactly when its channel did not exist, leaves every other channel as it was, and a channel it creates holds exactly the pair and is the pair's only one. |
| `DirectChannels.RepliesArePrivate` | src/modules/channels/channels.service.ts:135-173 | In every interleaving, every reply ever given names a DIRECT channel that has nobody but the two in it. |
| `DirectChannels.ReplyAnswersItsCall` | src/modules/channels/channels.service.ts:130-173 | In every run a reply is about the two users its call was made for, and a channel it created holds exactly those of the two who have not left it. |
| `Membership.CreatedOk` | src/modules/channels/channels.service.ts:64-103 | An accepted creation has the creator as only admin, all distinct participants as members, between 2 and 51 of them, exactly 2 in a DIRECT channel. |
| `Membership.CreationSucceedsIff` | src/modules/channels/channels.service.ts:64-103 | A channel is created exactly for at least one other participant and at most 50 distinct ones (one for a DIRECT channel) who all exist; which error otherwise; all join now. |
| `Membership.AddingSucceedsIff` | src/modules/channels/channels.service.ts:318-368 | A member is added exactly by an admin of a group with at most 50 members, if the user exists and is no member; with the asked role, MEMBER by default, and no other row changed; which error otherwise. |
| `Membership.RemovingRefusedIff` | src/modules/channels/channels.service.ts:374-396 | Removing is refused exactly to a non-admin who would remove another, or for a user who is no member. |
| `Membership.ChannelMembers.constructor` | src/modules/channels/channels.service.ts:157-173 | The inserted rows are those of the accepted creation and satisfy the invariant. |
| `Membership.ChannelMembers.Add` | src/modules/channels/channels.service.ts:318-368 | Each refusal in the code's order, or exactly one new row; the invariant is kept. |
| `Membership.ChannelMembers.Remove` | src/modules/channels/channels.service.ts:374-415 | Each refusal, or exactly one row gone and the promotion the rule demands; the invariant is kept. |
| `Membership.ChannelsStayGoverned` | src/modules/channels/channels.service.ts:318-415 | Over all runs from any accepted creation, a channel with a member has an admin, never more than 51 members, and a DIRECT channel never gains anyone. |
| `Membership.PromotionIff` | src/modules/channels/channels.service.ts:386-411 | A removal promotes someone if and only if it takes the only admin and leaves others behind; it picks a longest-standing member and changes no other role. |
| `Calls.CallsService.GetActiveCall` | src/modules/calls/calls.service.ts:52-63 | The call a live pointer and its live room describe, if any. |
| `Calls.CallsService.CreateCall` | src/modules/calls/calls.service.ts:65-85 | Writes room and both pointers with one ringing deadline. |
| `Calls.CallsService.AcceptCall` | src/modules/calls/calls.service.ts:88-100 | Marks the room connected, restarts its clock and extends room and live pointers to one deadline. |
| `Calls.CallsService.CleanupCall` | src/modules/calls/calls.service.ts:102-116 | Deletes the room and the pointers of the parties it names, and returns the call it was. |
| `Calls.CallsService.CleanupUserCall` | src/modules/calls/calls.service.ts:118-122 | The same for the call a user's live pointer names, nothing otherwise. |
| `Calls.CallsService.HandleInvite` | src/modules/calls/calls.gateway.ts:110-143 | The checks in the code's order, then the created call. |
| `Calls.CallsService.HandleInitiate` | src/modules/calls/calls.gateway.ts:290-353 | The DM path: the checks in the code's order, then a call to the first listed user. |
| `Calls.CallsService.HandleAccept` | src/modules/calls/calls.gateway.ts:148-173 | Refuses all but the callee of that very call. |
| `Calls.CallsService.HandleEnd` | src/modules/calls/calls.gateway.ts:178-203 | Reject and hangup: refuses all but a party of that very call, then cleans it up. |
| `Calls.CallsService.HandleDisconnect` | src/modules/calls/calls.gateway.ts:81-105 | Cleans up the user's call unless another socket remains. |
| `Calls.CallsStayConsistent` | src/modules/calls/calls.service.ts:52-122 | Over all runs of the handlers and at every later moment, every live room has two distinct parties whose pointers name it with its deadline, and every live pointer names a live room of its user. |
| `Calls.OneCallPerUser` | src/modules/calls/calls.gateway.ts:120-131 | No user is in two live calls, and both parties of a live call see that same call. |
| `Calls.RoomsAndPointersAgree` | src/modules/calls/calls.service.ts:52-122 | The same spelled out for every reachable state. |
| `Calls.PlacingSucceedsIff` | src/modules/calls/calls.gateway.ts:110-143 | A call is placed if and only if the target is another user, within rate, online and both are free; then both see the new ringing call until exactly two minutes later, and nobody else notices. |
| `Calls.AcceptConnectsBoth` | src/modules/calls/calls.gateway.ts:148-173 | Only the callee accepts; both parties then see the connected call until exactly four hours later, and nobody else notices. |
| `Calls.EndingFreesBoth` | src/modules/calls/calls.gateway.ts:259-285 | Reject, hangup or a last disconnect frees both parties, returns the call it was and leaves everyone else's call alone. |
| `Calls.OthersChangeNothing` | src/modules/calls/calls.gateway.ts:81-105 | A disconnect that leaves another socket or of a user in no call, and a reject or hangup of a call that is not the user's, change nothing. |
| `Calls.RefusalReason` | src/modules/calls/calls.gateway.ts:110-131 | Which refusal a caller gets, for invite and for initiate: the first check that fails, in the order of each handler. |
| `Calls.NobodyListed` | src/modules/calls/calls.gateway.ts:290-334 | An initiate that lists nobody is refused and changes nothing. |
| `Registries.SocketRegistry.AddSocket` | src/redis/redis-session.service.ts:37-55 | The commands of the transaction in order, and the count. |
| `Registries.SocketRegistry.RefreshSocket` | src/redis/redis-session.service.ts:58-71 | The heartbeat's commands. |
| `Registries.SocketRegistry.RemoveSocket` | src/redis/redis-session.service.ts:74-90 | The commands of the transaction in order, and the count. |
| `Registries.TypingRegistry.SetTyping` | src/redis/redis-cache.service.ts:127-140 | Sets the user's expiry and the key TTL. |
| `Registries.TypingRegistry.ClearTyping` | src/redis/redis-cache.service.ts:142-150 | Removes the user. |
| `Registries.TypingRegistry.GetTypingUsers` | src/redis/redis-cache.service.ts:152-168 | Purges and lists; the lower bound of the range excludes nothing more. |
| `Registries.RegistriesAreIdeal` | src/redis/redis-keys.ts:18-30 | For every timed trace both registries give the counts and lists, in order, of an ideal map of last beats or expiries that never forgets: key expiry only drops stale entries. |
| `Registries.AgreementNeedsTtl` | src/redis/redis-keys.ts:18-30 | Such a registry agrees with the ideal one on every trace if and only if the key TTL is at least the time an entry stays live. |
| `Registries.SocketsCountRecentBeats` | src/redis/redis-session.service.ts:37-90 | After any timed trace, adding or removing a socket reports the number of sockets whose last beat is less than 95 s old and that were not removed since. |
| `Registries.TypingListsRecentUsers` | src/redis/redis-cache.service.ts:127-168 | After any timed trace the listing names exactly the users who set typing less than 6 s ago and have not cleared it, each once. |
| `Reactions.AtMostOneReaction` | src/modules/reactions/reactions.service.ts:70-109 | In every interleaving of addReaction statements, removals and message deletions, whatever the lock hash, a user has at most one reaction per message. |
| `Reactions.CommitLeavesOne` | src/modules/reactions/reactions.service.ts:70-109 | In every interleaving a commit leaves its user on its message only the reaction it was made for, and that one unless it was dropped after the INSERT; everything else stays as it is. |
| `Reactions.ReactionsStand` | src/modules/reactions/reactions.service.ts:120-143 | Every reaction in the table was added by a commit and neither it was removed nor its message deleted since. |
| `Reactions.ReactionsService.AddReaction` | src/modules/reactions/reactions.service.ts:70-118 | Each refusal, silent and without effect, or the user's reaction to the message replaced, with no other row changed, and broadcast: one removal per reaction that went, then the addition if it is new; folding all broadcast events still rebuilds exactly the table. |
| `Reactions.ReactionsService.ReplaceReaction` | src/modules/reactions/reactions.service.ts:89-118 | The transaction and its broadcasts: the new table, the outcome and the events. |
| `Reactions.ReactionsService.BroadcastRemoved` | src/modules/reactions/reactions.service.ts:111-113 | The loop broadcasts each replaced reaction exactly once and nothing else, in any order. |
| `Reactions.ReactionsService.RemoveReaction` | src/modules/reactions/reactions.service.ts:120-143 | Removes and broadcasts exactly an existing reaction; the fold still rebuilds the table. |
| `Reactions.ReactionsService.DeleteMessage` | src/modules/messages/messages.service.ts:402-447 | Refuses all but the sender; drops the message's reactions and broadcasts once, also on a repeated delete; the fold still rebuilds the table. |

## Left out

- NestJS wiring, controllers, DTO validation, guards, JWT, health checks, error mapping: plumbing or finite case tables.
- Argon2, AES-GCM, Ed25519, X25519, LiveKit, Cloudinary, Socket.IO and BullMQ internals: foreign code.
- SRP secrecy, timing and decoy indistinguishability: only completeness and agreement are proved.
- Redis outages: they fail open by design; Redis is assumed available. Unread counters are not modelled.
- Group calls, call logs, call history and the WebRTC relays: straight-line writes around the call state.
- Key rotation, sender keys, refresh tokens, audit log, uploads: single conditional statements.
- Account deletion and its cascades: no message, membership or reaction disappears except by the operations modelled.
- MessageLog.SequenceNumbersContiguous: the retry loop itself is not modelled, since its branch is shown unreachable; the sender's watermark, written by the same transaction, is in `ReadWatermark`.
- ReadWatermark.WatermarkNeverFalls: a send and the conditional UPDATE are each one atomic step; Postgres re-evaluation of the subquery under a concurrent update is not modelled.
- MessageCache.GetCachedPage: every cached entry is a payload the server wrote, so the branch for malformed JSON entries does not arise.
- Membership.ChannelMembers.Add: its checks and its insert are one step; the 51-member bound is not claimed for finer interleavings.
- Calls.CallsStayConsistent: each handler is one step, although its check and its write are separate awaits in the code.
- Reactions.ReactionsService.AddReaction: the event property is for operations executed one at a time; `Reactions.AtMostOneReaction` covers interleavings.
- LikeEscape.IlikeSearchMatchesLiterally: case folding maps characters one to one, as a function of a single character.
