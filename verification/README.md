# Verification of the LLM-OS control plane

This project models the parts of LLM-OS whose correctness does not show in any single function:
the rotating audit log and the policy client of `llmd`, the identity codecs and their SHA-256, the
in-process service bus, the policy engine with its hot reload, the plugin lifecycle, and the
benchmark table reader. Each part is a set of Dafny modules.

| part | modules |
|---|---|
| audit log | `AuditLog` (one `emit`, and whole runs, as functions of the directory and of the faults), `AuditContent`, `AuditSizes`, `AuditOutcome`, `AuditSinks` (the class) |
| policy client | `Backoff`, `PolicyCalls` (one `evaluate` as a function of the clock and the server), `PolicyClients` (the class), `Breaker`, `CallOutcome`, `OutageLoad` |
| metrics | `Histogram` |
| identity | `Sha256Spec` (FIPS 180-4), `Sha256Padding`, `Sha256` (in place), `Sha256Vector`, `Hmac`, `Hex`, `Base64`, `Token`, `Workload` |
| service bus | `Channel` (a step system), `LocalChannels` (the class) |
| policy engine | `Subject`, `Engine`, `Reload` (a step system and its classes), `Gate` (wire mappings and `process_action`) |
| plugins | `Lifecycle`, `Runtime` (the class), `Ordering` |
| benchmark tables | `Csv`, `Table`, `Trimming` |
| helpers | `Wrappers`, `Types`, `Arithmetic`, `Bits`, `BlockFold` |

Code that updates state in place is a class or an array method here, and its contract ties the
whole new state to a function of the old one; the guarantees are then proved about that function,
over all inputs, all runs or all interleavings. Failures of the file system, the server, spawned
processes and other tasks are arguments of each step, so a statement over all arguments is a
statement over all environments.

Five guarantees that one might expect do not hold as such; for each the condition under which it
does is exact, and what goes wrong otherwise is shown.

- The size bound on audit files can be relied on after each emit exactly when no emit reopens a live
  file that is not empty while the metadata call fails; after one that does, a further record can
  break it (`AuditSizes.RunStaysBoundedExactly`, `AuditSizes.MetadataFailureBreaksBound`).
- The retry delay is the intended one exactly when it is below 2^64 ms; the cast truncates
  (`Backoff.DelayIsIdealWhenItFits`, `Backoff.DelayCanVanish`).
- Polling keeps the shared policy up to date exactly when the policy loaded at start-up is the file
  at the poller's first look; a write in between is never noticed (`Reload.UpToDateExactly`,
  `Reload.EarlyWriteIsMissed`).
- Subject matching is prefix matching exactly for `*`, for patterns ending in `/*` and for patterns
  that do not end in `*` (`Subject.SubjectMatchingIsPrefixMatchingExactly`).
- Quoting and splitting a row is a round trip exactly when no field contains a quote: the reader
  knows no doubled quotes (`Csv.RoundTripExactly`).

## Model

| member | source | states |
|---|---|---|
| `AuditSinks.JsonlFileAuditSink.constructor` | services/llmd/src/lib.rs:274-295 | Opening keeps existing records, the counter is the length of the live file unless the metadata call fails on a non-empty one, and the number of rotated files is clamped to at least one |
| `AuditSinks.JsonlFileAuditSink.RotateFiles` | services/llmd/src/lib.rs:297-329 | The descending rename loop, stopped by any fault, leaves exactly the state of `AuditLog.Rotate`, and what can be read back loses at most the file in slot N; the truncating open never meets an existing file |
| `AuditSinks.JsonlFileAuditSink.Emit` | services/llmd/src/lib.rs:332-395 | One emit succeeds if and only if no operation it reaches fails, and then the open live file ends in the record; old readable records plus an accepted one equal what was dropped followed by what is readable now; failure counter and last-failed gauge follow the outcome |
| `AuditSinks.JsonlFileAuditSink.TryEmit` | services/llmd/src/lib.rs:344-393 | The emit body with its early returns computes the function on which the whole-run theorems rest, and succeeds if and only if no operation it reaches fails |
| `AuditOutcome.ShiftSucceedsExactly` | services/llmd/src/lib.rs:303-318 | The rename loop succeeds if and only if no rename of an occupied slot fails, nor the removal of slot N when slot N-1 is to move there; no other slot ever needs removing |
| `AuditOutcome.EmitSucceedsExactly` | services/llmd/src/lib.rs:344-393 | In any state an emit succeeds if and only if serialising, then the shift and the truncating open when it must rotate or else the appending open of a closed file, and the write do not fail |
| `AuditOutcome.FaultlessRunAcceptsAll` | services/llmd/src/lib.rs:354-394 | From any state, open or closed, with the live file present or missing, a run without failures accepts every record |
| `AuditOutcome.AcceptedRecordIsWritten` | services/llmd/src/lib.rs:354-393 | An accepted record ends the open live file, behind its old content or alone in a new file; the other slots are as they were or one up; the counter is what it was, or re-read, plus the record |
| `AuditOutcome.ShiftStops` | services/llmd/src/lib.rs:303-318 | Where an interrupted loop stops: above that slot all have moved up, below it none, and the slot is vacant unless it could not be removed |
| `AuditOutcome.RefusedRecordIsNowhere` | services/llmd/src/lib.rs:344-393 | A refused record changes no file unless a rotation was due, and then only by the shift as far as it got |
| `AuditContent.ShiftBelowGap` | services/llmd/src/lib.rs:303-318 | Below a missing slot the loop loses nothing, wherever it is interrupted, and leaves higher slots alone |
| `AuditContent.ShiftLosesOnlyOldest` | services/llmd/src/lib.rs:303-318 | Under every pattern of failing removes and renames, the only records lost are those of slot N, and only when it is removed to make room |
| `AuditContent.ShiftVacatesLiveSlot` | services/llmd/src/lib.rs:297-329 | If every rename succeeded the live file is gone, which rests on the clamp to at least one; otherwise it is unchanged |
| `AuditContent.ShiftIsSimultaneous` | services/llmd/src/lib.rs:303-318 | Without failures the loop moves all slots up by one at once, whatever the gaps, except that slot N stays when slot N-1 is missing |
| `AuditContent.RotateLosesOnlyOldest` | services/llmd/src/lib.rs:297-329 | A whole rotation, truncating open included, loses at most slot N |
| `AuditContent.EmitConserves` | services/llmd/src/lib.rs:333-394 | Conservation for one emit under any faults: before plus accepted equals dropped plus after, in order |
| `AuditContent.RunKeepsSuffix` | services/llmd/src/lib.rs:333-394 | Over any run with any faults, reading path.N .. path.1, path gives a suffix of the records accepted, in order and without duplicates |
| `AuditSizes.EmitKeepsSizes` | services/llmd/src/lib.rs:354-393 | The counter stays right after one emit if and only if that emit does not reopen a non-empty file with a failing metadata call; every file stays within the limit or holds one record |
| `AuditSizes.RunKeepsSizes` | services/llmd/src/lib.rs:354-393 | Over any run none of whose emits misreads in the state it meets, whatever else fails, harmless metadata failures included, an open live file has the counted length and every file is within the limit or holds one record |
| `AuditSizes.StaysBoundedExactly` | services/llmd/src/lib.rs:354-393 | In any state the size bound holds for all futures without metadata failures if and only if it holds now and the counter is not below the live file's length with rotation not yet due |
| `AuditSizes.EmitStaysBoundedExactly` | services/llmd/src/lib.rs:360-376 | One emit leaves the bound reliable in that sense if and only if it does not reopen a non-empty live file with a failing metadata call |
| `AuditSizes.RunStaysBoundedExactly` | services/llmd/src/lib.rs:354-393 | A run leaves the bound reliable after each of its emits if and only if none of them misreads |
| `AuditSizes.OpenStaysBoundedExactly` | services/llmd/src/lib.rs:284-285 | The constructor leaves the bound reliable if and only if the existing files obey it and a failing metadata call finds the live file empty |
| `AuditSizes.MetadataFailureBreaksBound` | services/llmd/src/lib.rs:367-368 | A concrete run of four emits in which a failing metadata call lets three records share a file above the limit |
| `AuditSizes.EmitKeepsPacked` | services/llmd/src/lib.rs:354-393 | Without failures the used slots stay contiguous and any two neighbouring files together exceed the limit |
| `AuditSizes.RunStaysPacked` | services/llmd/src/lib.rs:274-394 | The same over whole failure-free runs from an empty directory, with nothing lost while a slot is free |
| `AuditSizes.RunKeepsEnough` | services/llmd/src/lib.rs:274-394 | Once a failure-free run has dropped anything, more than floor((N+1)/2) times the limit is still readable |
| `Backoff.DelayIsIdealWhenItFits` | services/llmd/src/lib.rs:615-624 | The computed delay is min(initial * 2^min(attempt-1, 30), max) if and only if that is below 2^64 ms, so always when the maximum is |
| `Backoff.DelayDoublesThenStays` | services/llmd/src/lib.rs:615-624 | For attempts 1 to 31 the delay is min(initial * 2^(attempt-1), max), so each is twice the one before up to the maximum; from attempt 31 on it stays |
| `Backoff.DelayCanVanish` | services/llmd/src/lib.rs:623 | A maximum of exactly 2^64 ms can give no delay at all |
| `Backoff.DelayNeverShrinks` | services/llmd/src/lib.rs:615-624 | For a maximum below 2^64 ms later attempts wait at least as long as earlier ones |
| `Backoff.TotalDelayBound` | services/llmd/src/lib.rs:493-539 | The delays between n attempts sum to at most (n-1) * max and at most (2^(n-1) - 1) * initial |
| `PolicyClients.GrpcPolicyDecisionClient.Connect` | services/llmd/src/lib.rs:463-480 | A connected client is fresh, with attempts and threshold clamped to at least one |
| `PolicyClients.GrpcPolicyDecisionClient.FailIfCircuitOpen` | services/llmd/src/lib.rs:627-640 | The check rejects exactly before the deadline, and otherwise clears it; gauge and deadline follow |
| `PolicyClients.GrpcPolicyDecisionClient.MarkSuccess` | services/llmd/src/lib.rs:642-646 | A success clears the failure count, the deadline and the gauge |
| `PolicyClients.GrpcPolicyDecisionClient.MarkFailure` | services/llmd/src/lib.rs:648-656 | A failure raises the saturating count, and from the threshold on assigns a deadline, the gauge and the counter |
| `PolicyClients.GrpcPolicyDecisionClient.Handle` | services/llmd/src/lib.rs:499-538 | What the client does with one outcome: end the call or count a retry |
| `PolicyClients.GrpcPolicyDecisionClient.RunAttempts` | services/llmd/src/lib.rs:493-546 | The retry loop always returns from within, with the state, result, RPCs and sleep of `PolicyCalls.FromAttempt`; the code after the loop is unreachable |
| `PolicyClients.GrpcPolicyDecisionClient.Evaluate` | services/llmd/src/lib.rs:484-554 | One call is `PolicyCalls.Evaluate`: state, result, instants of the RPCs, time slept and deadlines assigned. A call before the deadline leaves deadline and failures alone; one let through sends an RPC exactly with valid request ids |
| `PolicyCalls.RetryIsAccumulated` | services/llmd/src/lib.rs:516-525 | The loop's running totals and the recursive meaning of a call agree after each retry |
| `Breaker.CallEndsWithLastAttempt` | services/llmd/src/lib.rs:493-539 | A call ends as its first attempt that is not retried ends it; the retries before it only count |
| `Breaker.LastAttemptEnds` | services/llmd/src/lib.rs:493-539 | Every call has an attempt that ends it: all before it met a timeout or an UNAVAILABLE or DEADLINE_EXCEEDED status, and it did not, or no attempt is left |
| `Breaker.ResultExactly` | services/llmd/src/lib.rs:484-554 | The result of a call: rejection by an open breaker, then by bad request ids, and otherwise the reply, status or timeout of the attempt that ends it |
| `CallOutcome.RejectedCallLeaves` | services/llmd/src/lib.rs:627-640 | A call before the deadline is rejected, counted and shown on the gauge; everything else stays, the deadline included |
| `CallOutcome.BadRequestIdsLeave` | services/llmd/src/lib.rs:494 | A call let through with invalid request ids only clears the deadline and sends nothing |
| `CallOutcome.SentCallLeaves` | services/llmd/src/lib.rs:493-554 | A call that ends with attempt k leaves, field by field: k retries, one latency, a cleared breaker after a reply, and otherwise one failure more and from the threshold on a deadline one cooldown after the end |
| `CallOutcome.SentCallSends` | services/llmd/src/lib.rs:493-497 | It sends exactly attempts 0..k, each at its instant |
| `CallOutcome.SentCallSleeps` | services/llmd/src/lib.rs:516-525 | It sleeps exactly the delays of its k retried attempts |
| `CallOutcome.RejectedRunLeaves` | services/llmd/src/lib.rs:627-640 | Over any run of rejected calls deadline, failures and the other counters stay; requests grow by one each |
| `CallOutcome.FirstCallAfterDeadlineIsSent` | services/llmd/src/lib.rs:627-640 | Recovery: after any number of rejections the first call at or after the deadline with valid request ids sends an RPC |
| `CallOutcome.DeadlineIsOfLastFailure` | services/llmd/src/lib.rs:648-656 | The deadline in force is one cooldown after the end of the last failed call, whatever was rejected since |
| `Breaker.CallSendsPerAttempt` | services/llmd/src/lib.rs:493-497 | A call sends one RPC per attempt made, at that attempt's instant |
| `Breaker.SleepIsBounded` | services/llmd/src/lib.rs:493-539 | Time slept in one evaluation that sent k RPCs is at most (k-1) * max and at most (2^(k-1) - 1) * initial, with k at most the number of attempts |
| `Breaker.EvaluateKeepsAccounts` | services/llmd/src/lib.rs:484-554 | One call keeps the accounts below for every client state, clock and server |
| `Breaker.ReachableClientsAreAccounted` | services/llmd/src/lib.rs:627-656 | In every reachable state: a deadline implies failures at or above the threshold; failures is the saturated number of calls that failed after an RPC since the last success; the gauge is 1 exactly with a deadline; opens counts closed-to-open transitions; retries plus calls with an RPC are the RPCs; requests are latencies plus breaker and metadata rejections |
| `Breaker.NothingIsSentBeforeDeadline` | services/llmd/src/lib.rs:627-640 | With a deadline set and a monotone clock no RPC is sent before it |
| `Breaker.FailedCallMarks` | services/llmd/src/lib.rs:527-546 | A call that sent RPCs and got no reply raises the count by one and sets a deadline exactly from the threshold on |
| `OutageLoad.FailedCallCostsOne` | services/llmd/src/lib.rs:648-656 | Because the failure count survives the cooldown, each failed call uses up one unit of what remains up to any horizon |
| `OutageLoad.LoadWithinAllowance` | services/llmd/src/lib.rs:484-554 | From any state, the RPCs up to a horizon in an outage are at most attempts times the remaining allowance |
| `OutageLoad.OutageLoadIsBounded` | services/llmd/src/lib.rs:484-554 | From a fresh client, while no call succeeds, at most max_attempts * (threshold + floor(T / cooldown)) RPCs are sent within time T |
| `Histogram.RuntimeMetrics.Observe` | services/llmd/src/lib.rs:115-127 | Each observation updates sum, count and at most one bucket, modulo 2^64, keeping them equal to those of everything observed |
| `Histogram.RuntimeMetrics.CountInBucket` | services/llmd/src/lib.rs:121-126 | The loop counts the first boundary that fits and no other |
| `Histogram.RuntimeMetrics.Render` | services/llmd/src/lib.rs:195-216 | Rendered cumulative buckets never decrease; below 2^64 observations each is the number of observations at or below its boundary and at most the +Inf count; count and sum match |
| `Histogram.CumulativeCountsAtMost` | services/llmd/src/lib.rs:115-127 | First-fit buckets added up to a boundary count exactly the observations at or below it |
| `Histogram.CumulativeBucketsNeverDecrease` | services/llmd/src/lib.rs:115-127 | The observations at or below a boundary are no more than those at or below a later one, nor than all |
| `Sha256.LoadWords` | crates/identity/src/hmac.rs:100-107 | The first sixteen schedule entries are the big-endian words of the block |
| `Sha256.ExtendWords` | crates/identity/src/hmac.rs:108-115 | The schedule loop computes W_t of section 6.2.2 of FIPS 180-4 for all 64 entries |
| `Sha256.RotationsAgree` | crates/identity/src/hmac.rs:109-110 | The code's rotations and shifts are the sigma functions of section 4.1.2 of FIPS 180-4 |
| `Sha256.RunRounds` | crates/identity/src/hmac.rs:117-139 | The eight rotating registers after the loop are the 64 rounds of the standard |
| `Sha256.ProcessChunk` | crates/identity/src/hmac.rs:99-149 | One chunk updates the hash array in place by the compression function |
| `Sha256.PadMessage` | crates/identity/src/hmac.rs:89-97 | Padding with the zero-fill loop, which terminates, is the padding of section 5.1.1 of FIPS 180-4 |
| `Sha256.HashChunks` | crates/identity/src/hmac.rs:99-149 | The chunk loop is the left fold of the compression over the padded message |
| `Sha256.WriteDigest` | crates/identity/src/hmac.rs:151-155 | The digest is the eight words, big-endian |
| `Sha256.Hash` | crates/identity/src/hmac.rs:83-156 | The in-place computation is the recursive SHA-256 of FIPS 180-4 for every message |
| `Sha256Vector.HashOfHello` | crates/identity/src/hmac.rs:171-180 | The definition hashes `hello` as the crate's own vector says: constants, functions, schedule, rounds and padding together give that digest |
| `Sha256Padding.ZerosAreFewest` | crates/identity/src/hmac.rs:92-94 | The zero bytes are the fewest that let the length end a block |
| `Sha256Padding.BitCountMayWrap` | crates/identity/src/hmac.rs:89 | The 64-bit length bytes are the same whether or not the bit count wraps |
| `Sha256Padding.PadIsInjective` | crates/identity/src/hmac.rs:89-97 | Two messages under 2^61 bytes with the same padding are equal |
| `Hmac.Compute` | crates/identity/src/hmac.rs:9-34 | HMAC-SHA-256 as section 2 of RFC 2104 defines it |
| `Hmac.HmacIsRfc2104` | crates/identity/src/hmac.rs:9-34 | In the terms of section 2 of RFC 2104: for any blocks that hold the key, hashed when long and zero-filled, xored with 0x36 and with 0x5c, the result is H(outer, H(inner, message)) |
| `Hmac.PadKey` | crates/identity/src/hmac.rs:10-16 | The key block is the key, hashed when longer than a block, followed by zeros |
| `Hmac.KeyPads` | crates/identity/src/hmac.rs:18-23 | Both pads are the key block xored in place with their constants |
| `BlockFold.FoldComposes` | crates/identity/src/hmac.rs:99 | Folding over a block-aligned concatenation composes |
| `Hmac.HashResumesAfterBlock` | crates/identity/src/hmac.rs:83-156 | Hashing behind one block resumes from the state after that block |
| `Hmac.HmacResumesFromKeyStates` | crates/identity/src/hmac.rs:9-34 | HMAC resumes both hashes from two states that depend only on the normalised key |
| `Hmac.NormalisedKeysAgree` | crates/identity/src/hmac.rs:10-16 | Keys of at most a block normalise alike exactly when they differ by trailing zero bytes |
| `Hex.HexEncode` | crates/identity/src/hmac.rs:49-55 | The loop writes two lower-case digits per byte |
| `Hex.HexDecode` | crates/identity/src/hmac.rs:58-68 | The loop decodes pairs, rejects odd lengths and other characters, and panics inside a multi-byte character |
| `Hex.DecodesExactly` | crates/identity/src/hmac.rs:58-68 | A text is accepted exactly when its length is even and every pair is two hexadecimal digits of either case, the first of which may be a plus sign; decoding panics exactly when, after such pairs only, a slice ends inside a character |
| `Hex.CaseDoesNotMatter` | crates/identity/src/hmac.rs:58-68 | A text and its lower-case form decode alike |
| `Hex.PlusDoesNotMatter` | crates/identity/src/hmac.rs:63 | A leading plus sign of a pair counts as a zero |
| `Hex.VectorOfTheCrate` | crates/identity/src/hmac.rs:199-206 | The digits are 0-9 and a-f, and de ad be ef is written as it is named |
| `Hex.DecodeInvertsEncode` | crates/identity/src/hmac.rs:49-68 | Decoding inverts encoding for all byte sequences |
| `Hex.EncodeInvertsDecode` | crates/identity/src/hmac.rs:49-68 | Encoding what was decoded returns the text exactly for lower-case digits (the decoder also takes upper case and a plus sign) |
| `Hex.ConstantTimeEq` | crates/identity/src/hmac.rs:37-46 | The OR-of-XORs loop returns true exactly on equal byte strings |
| `Base64.Base64Encode` | crates/identity/src/token.rs:85-111 | The chunk loop computes the encoding |
| `Base64.Base64Decode` | crates/identity/src/token.rs:113-160 | The chunk loop computes the decoding, with the same error at the same chunk |
| `Base64.DecodeAccepts` | crates/identity/src/token.rs:113-160 | A text is accepted exactly when its length is a multiple of four and it holds only alphabet characters and `=`, anywhere |
| `Base64.DecodeErrorExactly` | crates/identity/src/token.rs:113-160 | A rejected text gets the first foreign character of its complete quanta as its error, or else an invalid length |
| `Base64.QuantumBytes` | crates/identity/src/token.rs:134-156 | The bytes of an accepted quantum, canonical or not: padding counts wherever it stands, and each byte is put together from the two sextets it overlaps |
| `Base64.DecodeOfQuanta` | crates/identity/src/token.rs:129-159 | Quanta decode one after the other |
| `Base64.AlphabetOfTheStandard` | crates/identity/src/token.rs:86 | The alphabet is that of section 4 of RFC 4648 |
| `Base64.VectorsOfTheStandard` | crates/identity/src/token.rs:85-111 | Test vectors of section 10 of RFC 4648 |
| `Base64.DecodeInvertsEncode` | crates/identity/src/token.rs:85-160 | Decoding inverts encoding for all byte sequences |
| `Base64.EncodeIsCanonical` | crates/identity/src/token.rs:85-111 | Encoded text is padded only at the end of the last quantum and leaves unused bits zero |
| `Base64.CanonicalTextReturns` | crates/identity/src/token.rs:85-160 | Every canonical text (sections 3.5 and 4 of RFC 4648) is accepted and encodes back to itself |
| `Base64.EncodeInvertsDecode` | crates/identity/src/token.rs:85-160 | Encoding what was decoded returns an accepted text if and only if it is canonical |
| `Base64.EncodeAvoidsStop` | crates/identity/src/token.rs:85-111 | Encoded text has no full stop |
| `Token.Sign` | crates/identity/src/token.rs:54-61 | Signing succeeds when the claims serialise, and gives base64(json) + "." + hex(HMAC(key, base64(json))) |
| `Token.Verify` | crates/identity/src/token.rs:64-82 | Verifying with the crate's loops succeeds if and only if some e has raw == e + "." + hex(HMAC(key, e)), e decodes and its JSON parses; errors are those of `Token.DecodeSigned` |
| `Token.AcceptedExactly` | crates/identity/src/token.rs:64-82 | A token is accepted exactly when it is e + "." + hex(HMAC(key, e)) with e decodable to JSON that parses, and then with those claims |
| `Token.RejectedExactly` | crates/identity/src/token.rs:64-76 | Which error a rejected token gets: no full stop, then the signature after the last one, then the payload, then the claims |
| `Token.DecodeInvertsIssue` | crates/identity/src/token.rs:54-82 | What was issued under a key is accepted under it with the same claims, if JSON round-trips them |
| `Token.PayloadDeterminesToken` | crates/identity/src/token.rs:64-82 | Accepted tokens with equal payload text and key are identical |
| `Token.DecodeInvertsUnsignedIssue` | crates/identity/src/token.rs:29-43 | The unsigned form round-trips |
| `Workload.SplitOnceExactly` | crates/identity/src/workload.rs:16-18 | The split is at the first separator, and there is none exactly when the character is absent |
| `Workload.ParseInvertsDisplay` | crates/identity/src/workload.rs:15-47 | Parse and display are mutual inverses: a text parses to an id exactly when it displays that id and the id is well formed |
| `Workload.AcceptedExactly` | crates/identity/src/workload.rs:15-52 | Accepted texts are exactly two non-empty sides of lower-case letters, digits, hyphens and underscores with a slash between, and those are what is parsed |
| `Workload.AcceptedHasOneSlash` | crates/identity/src/workload.rs:15-32 | Accepted ids have exactly one slash |
| `Workload.RejectedExactly` | crates/identity/src/workload.rs:15-32 | Which texts are format errors and which are character errors |
| `Channel.SubscribeKeepsInv` | crates/service-bus/src/channel.rs:76-84 | A subscription keeps the invariant of the bus |
| `Channel.PublishKeepsInv` | crates/service-bus/src/channel.rs:47-61 | Taking a snapshot keeps the invariant: it holds exactly the subscriptions to the topic so far |
| `Channel.SubscribeOpens` | crates/service-bus/src/channel.rs:76-84 | A subscription adds one open empty receiver to the end of its topic's list and nothing else |
| `Channel.PublishedEnvelopeStays` | crates/service-bus/src/channel.rs:46-65 | A publish is recorded with the envelope given, and after any later steps the queued messages still mean that envelope |
| `Channel.ReceiveTakesOldest` | crates/service-bus/src/channel.rs:76-84 | A receive takes the oldest message of that receiver's queue and nothing else |
| `Channel.DroppedReceiversGetNothing` | crates/service-bus/src/channel.rs:63-71 | A dropped receiver is gone for good and is given nothing more |
| `Channel.SendKeepsInv` | crates/service-bus/src/channel.rs:63-71 | A send, delivered or refused, keeps the invariant at any point between other steps |
| `Channel.ReachableInv` | crates/service-bus/src/channel.rs:46-84 | The invariant holds after every interleaving of publishers, subscribers, receivers and drops |
| `Channel.ReceiversGetTheirMessages` | crates/service-bus/src/channel.rs:46-84 | Each receiver is given only envelopes of its topic snapshotted after it subscribed, each call's at most once, each publisher's in order; no queue exceeds its capacity, and an open queue is what was given and not yet taken |
| `Channel.NoSubscribersExactly` | crates/service-bus/src/channel.rs:47-61 | NoSubscribers is returned exactly when no subscription to the topic preceded the snapshot |
| `Channel.CompletedPublishesArrive` | crates/service-bus/src/channel.rs:63-73 | A receiver to which no send was refused has every completed publish snapshotted after it subscribed |
| `Channel.MissedOneMore` | crates/service-bus/src/channel.rs:64-71 | A send is refused to a receiver exactly when it is gone or its queue is full |
| `Channel.RoomyReceiversGetEverything` | crates/service-bus/src/channel.rs:63-73 | A receiver that is open and not full in every state of a run has every completed publish snapshotted after it subscribed |
| `Channel.OthersDoNotMatter` | crates/service-bus/src/channel.rs:63-71 | Full, slow or dropped receivers never change what another receives nor what a publish returns |
| `LocalChannels.LocalChannel.Subscribe` | crates/service-bus/src/channel.rs:76-84 | Subscribing is one step of the bus |
| `LocalChannels.LocalChannel.SendNext` | crates/service-bus/src/channel.rs:64-65 | One iteration of the loop is one send step |
| `LocalChannels.LocalChannel.SendAll` | crates/service-bus/src/channel.rs:63-71 | The loop is one send step per handle of the snapshot, in order |
| `LocalChannels.LocalChannel.Publish` | crates/service-bus/src/channel.rs:46-74 | An uninterrupted publish is the run of its snapshot, one send per handle and the return |
| `LocalChannels.ReachableHandlesExist` | crates/service-bus/src/channel.rs:46-84 | What `Publish` asks of the subscriber lists holds in every reachable bus |
| `Reload.RunStaysUpToDate` | services/policy-engine/src/reload.rs:52-96 | Every interleaving of writes, removals, stats and loads keeps: remembered time equal to the file's implies the policy is the parse of its content |
| `Reload.UpToDateExactly` | services/policy-engine/src/reload.rs:52-96 | From the poller's start that holds over all interleavings if and only if the initial policy is the parse of the file at the first stat |
| `Reload.EarlyWriteIsMissed` | services/policy-engine/src/reload.rs:53 | Otherwise polling alone never changes the stale policy |
| `Reload.FailedLoadIsRetried` | services/policy-engine/src/reload.rs:87-93 | A failed load changes nothing and the next stat sees the difference again |
| `Reload.LoadRemembersTheStat` | services/policy-engine/src/reload.rs:58-79 | A write between stat and load is loaded at once, but the time of the stat is remembered, so the next poll loads once more |
| `Reload.NextPollCatchesUp` | services/policy-engine/src/reload.rs:55-86 | After any run, a whole poll over a valid unchanged file makes its content the policy |
| `Reload.PolicyWasInTheFile` | services/policy-engine/src/reload.rs:35-46 | Readers only ever get the initial policy or a whole policy that parsed from what was the file at some load of the run |
| `Reload.Poller.Poll` | services/policy-engine/src/reload.rs:55-94 | One turn of the loop is a stat step and a load step, with the file possibly different at each |
| `Subject.NamespacePatternsAgree` | services/policy-engine/src/identity.rs:18-31 | For patterns ending in `/*` identity-aware and plain matching agree on every subject |
| `Subject.ParsedBranchIsRawBranch` | services/policy-engine/src/identity.rs:23-28 | For a well-formed subject the parsed namespace decides like the raw prefix |
| `Subject.SubjectMatchingIsPrefixMatchingExactly` | services/policy-engine/src/engine.rs:68-78 | Both kinds of matching agree on all subjects if and only if the pattern is `*`, ends in `/*` or does not end in `*` |
| `Subject.PatternFitsExactly` | services/policy-engine/src/engine.rs:68-78 | A pattern matches when it is a star, is the value, or ends in a star and the value extends what comes before |
| `Subject.SubjectFitsExactly` | services/policy-engine/src/identity.rs:18-31 | A subject pattern matches when it is a star, is the subject, or ends in a slash and a star and the subject extends the namespace and its slash |
| `Engine.EvaluatePolicy` | services/policy-engine/src/engine.rs:6-51 | From the texts of the rules: deny naming the first deny rule whose subject, actions and resources fit, else allow naming the first such allow rule, else default deny |
| `Engine.DecisionAnswers` | services/policy-engine/src/engine.rs:6-78 | The same of any decision that meets the abstract description |
| `Engine.RuleThatMissesIsIgnored` | services/policy-engine/src/engine.rs:53-60 | A rule whose subject, actions or resources do not fit never changes the decision |
| `Engine.DecisionIsUnique` | services/policy-engine/src/engine.rs:6-51 | That description determines the decision |
| `Engine.AllowedExactly` | services/policy-engine/src/engine.rs:6-51 | The effect is allow exactly when some rule allows and no rule denies |
| `Engine.EffectIgnoresOrder` | services/policy-engine/src/engine.rs:6-51 | Permuting the rules does not change the effect |
| `Engine.DecisionsCompose` | services/policy-engine/src/engine.rs:6-51 | Deciding over concatenated rule lists combines their decisions |
| `Gate.OnlyAllowAllows` | services/llmd/src/lib.rs:585-606 | Whatever text the service writes as effect, only `allow` allows |
| `Gate.WireKeepsDecision` | services/policy-engine/src/grpc.rs:123-146 | Across both wire mappings effect and reason survive; a rule id that arrives names a matching rule of that effect; with non-empty rule ids the client sees none exactly when no rule fits |
| `Gate.ActionGate.ProcessAction` | services/llmd/src/lib.rs:659-706 | One action updates audit, counters and executions as `Gate.Process` says, and tells the caller what policy and executor answered |
| `Gate.ResultExactly` | services/llmd/src/lib.rs:659-706 | The result is Ok if and only if the policy answered allow and the executor succeeded, and then the executor's; a deny and an unavailable policy refuse with their reason; otherwise the executor's error |
| `Gate.CountersMatchResults` | services/llmd/src/lib.rs:659-706 | Over any run allows count the Ok results and denies the refusals |
| `Gate.ExecutionsAreTheAllowed` | services/llmd/src/lib.rs:698 | Over any run the executor is given exactly the requests the policy allowed, once each and in order |
| `Gate.EveryOutcomeIsRecorded` | services/llmd/src/lib.rs:659-706 | Over any run audit events are allows plus denies, which are actions minus executor errors; executions are allows plus executor errors |
| `Gate.EventsDescribeActions` | services/llmd/src/lib.rs:708-724 | Over any run the audit events describe, field by field and in order, distinct actions of the run, and tell the status or reason their callers were told |
| `Gate.AuditedDecisionsMatchOutcomes` | services/llmd/src/lib.rs:659-706 | Over any run the outcome under a deny decision is Denied, and outcomes are Denied only under deny decisions if and only if no executor that was run answered Denied |
| `Gate.ReplyComesFromAnAttempt` | services/llmd/src/lib.rs:500-504 | A reply the client returns answers one of its own attempts |
| `Gate.ExecutorRunsExactly` | services/llmd/src/lib.rs:585-706 | End to end, the executor runs a request exactly when the client obtains a reply and the policy has a matching allow and no matching deny |
| `Lifecycle.ReachableInv` | services/mcp-runtime/src/lib.rs:74-196 | In every reachable state running ids have a sandbox config, configured ids have a manifest, and each config is the one resolved from that id's own manifest |
| `Lifecycle.NextKeepsInv` | services/mcp-runtime/src/lib.rs:74-196 | Each call keeps that, whatever exits, fails to spawn or fails to stop |
| `Lifecycle.ProfilesFollowCapabilities` | services/mcp-runtime/src/sandbox.rs:21-48 | In every such state only plugins that declare network egress have the permissive profiles, and no two manifest ids share a log directory |
| `Lifecycle.StopAllStopsEverything` | services/mcp-runtime/src/lib.rs:135-142 | A successful stop_all leaves nothing running |
| `Lifecycle.StartAllStartsEverything` | services/mcp-runtime/src/lib.rs:74-81 | A successful start_all configures every plugin and leaves running each one that no probe saw exit |
| `Lifecycle.StopLeavesConfigExactly` | services/mcp-runtime/src/lib.rs:117-128 | A stop always forgets the process, and leaves the config exactly when it fails or the process had already gone |
| `Lifecycle.StartDecides` | services/mcp-runtime/src/lib.rs:83-115 | A start succeeds exactly when the plugin runs afterwards, as its old process or the one just spawned, and fails as unknown exactly without a manifest |
| `Lifecycle.StartConfigures` | services/mcp-runtime/src/lib.rs:83-115 | Starting a plugin that is not running configures it whenever it is known, a failed spawn included |
| `Lifecycle.StopDecides` | services/mcp-runtime/src/lib.rs:117-128 | A stop fails exactly when the plugin is found running and its process cannot be stopped |
| `Lifecycle.RestartDecides` | services/mcp-runtime/src/lib.rs:130-133 | A restart whose stop fails fails with it and starts nothing; otherwise what the start makes of it |
| `Lifecycle.StartEachStopsAtFailure` | services/mcp-runtime/src/lib.rs:74-81 | A start_all that fails does so at the first id that fails, those before it having succeeded and those after it untried |
| `Lifecycle.StopEachStopsAtFailure` | services/mcp-runtime/src/lib.rs:135-142 | The same of stop_all |
| `Lifecycle.RestartReplacesProcess` | services/mcp-runtime/src/lib.rs:130-133 | A successful restart runs the newly spawned process |
| `Lifecycle.OthersAreLeftAlone` | services/mcp-runtime/src/lib.rs:83-128 | A call for one plugin leaves the others alone, but for exits it notices |
| `Lifecycle.ListingOfSorted` | services/mcp-runtime/src/lib.rs:144-162 | Statuses taken over the sorted manifest ids are one entry per manifest in strictly ascending order |
| `Runtime.RuntimeManager.Start` | services/mcp-runtime/src/lib.rs:83-115 | One start is `Lifecycle.Start` on the manager's maps; the config is inserted before the spawn |
| `Runtime.RuntimeManager.Stop` | services/mcp-runtime/src/lib.rs:117-128 | One stop is `Lifecycle.Stop`; the process is removed before it is known to have ended |
| `Runtime.RuntimeManager.Restart` | services/mcp-runtime/src/lib.rs:130-133 | A restart is a stop and, if that succeeds, a start |
| `Runtime.RuntimeManager.StartAll` | services/mcp-runtime/src/lib.rs:74-81 | The loop starts the manifests in ascending order up to the first failure |
| `Runtime.RuntimeManager.StopAll` | services/mcp-runtime/src/lib.rs:135-142 | The loop stops what ran before the first probe, in ascending order up to the first failure |
| `Runtime.RuntimeManager.List` | services/mcp-runtime/src/lib.rs:144-162 | The list has exactly one entry per manifest, strictly sorted, telling whether and as which process it runs |
| `Runtime.RuntimeManager.FindExited` | services/mcp-runtime/src/lib.rs:168-191 | The probing loop finds exactly the running ids whose process has exited |
| `Runtime.RuntimeManager.ReconcileExited` | services/mcp-runtime/src/lib.rs:168-195 | Removing what was found one by one leaves running exactly the ids not seen to exit, each with its process, and no config changed |
| `Ordering.Sorted` | services/mcp-runtime/src/lib.rs:75-76 | Sorting a set of ids gives each once, in ascending order |
| `Ordering.BeforeExactly` | services/mcp-runtime/src/lib.rs:76 | The order of ids is that of the first difference, a prefix coming first |
| `Csv.SplitCsvRow` | crates/benchmark-ingest/src/parser.rs:86-103 | The character loop returns what lies between the commas preceded by an even number of quotes, without quotes and trimmed |
| `Csv.FieldsPerSeparator` | crates/benchmark-ingest/src/parser.rs:86-103 | On any row the field count is one plus the commas preceded by an even number of quotes |
| `Csv.JoinedFieldsAreTheRow` | crates/benchmark-ingest/src/parser.rs:86-103 | On any row, joining the fields again before they are trimmed gives the row without its quotes: nothing else is lost or moved |
| `Csv.RoundTrip` | crates/benchmark-ingest/src/parser.rs:86-103 | Quoting fields without quotes, joining them with commas and splitting gives them back |
| `Csv.RoundTripExactly` | crates/benchmark-ingest/src/parser.rs:86-103 | For every non-empty list, the result is the trimmed fields if and only if no field contains a quote |
| `Trimming.TrimExactly` | crates/benchmark-ingest/src/parser.rs:95 | Trimming removes the whitespace before and after and nothing else |
| `Trimming.WhitespaceExactly` | crates/benchmark-ingest/src/parser.rs:95 | Whitespace is the twenty-five code points with the Unicode property |
| `Table.ValidateHeader` | crates/benchmark-ingest/src/parser.rs:32-44 | A header is accepted exactly with 29 or more separators and `run_id` first; the count is checked before the name |
| `Table.ParseRow` | crates/benchmark-ingest/src/parser.rs:46-50 | A row is rejected for too few fields, with their number, exactly when it has fewer than 29 commas outside quotes; only then are its fields not converted |
| `Table.ReadRows` | crates/benchmark-ingest/src/parser.rs:18-29 | The rows are read in order, or the error names the first bad line, counted with the header and blank lines |
| `Table.ParseBenchmarkCsv` | crates/benchmark-ingest/src/parser.rs:10-30 | Which tables are empty, have a bad header, have a bad row, or are read, and what is returned for each |
| `Table.RecordPerLine` | crates/benchmark-ingest/src/parser.rs:18-29 | A table that is read has one record for each line after the header that is not blank |
| `Table.RecordIsOfItsLine` | crates/benchmark-ingest/src/parser.rs:18-29 | The i-th record is what the fields of the i-th line that is not blank convert to, and no such line is left out |

## Left out

- AuditSinks.JsonlFileAuditSink.Emit: writes are all-or-nothing and flushing never fails; a poisoned lock is not modelled; the 64-bit byte counter is unbounded.
- AuditSinks.JsonlFileAuditSink.constructor: a failing directory creation or open leaves no sink and is not modelled.
- AuditSizes.StaysBoundedExactly: records may be of any length, the empty one included, although a serialised event never is.
- The directory is touched by no other process, and `exists` is accurate.
- Backoff: durations are whole milliseconds, and instants never overflow.
- PolicyClients.GrpcPolicyDecisionClient.Evaluate: the call is not cancelled midway; one client owns the policy counters and the gauge; whether the request ids are valid metadata is an argument.
- Histogram.RuntimeMetrics.Render: observations and rendering do not overlap, although the source's counters are relaxed atomics.
- Sha256.Hash: the 64-bit bit count wraps as in a release build; a debug build panics from 2^61 bytes.
- Timing behaviour and cryptographic strength of HMAC and of the comparison.
- Hex.HexDecode: text is its UTF-8 bytes, taken to be well formed.
- Token.DecodeInvertsIssue: JSON is a pair of functions, and their round trip on the claims is assumed.
- Workload.ParseInvertsDisplay: identifiers built by deserialisation, which skips the checks, are not covered.
- LocalChannels.LocalChannel.Subscribe: requires a positive capacity, since creating a queue of capacity zero panics; lock poisoning is not modelled.
- Channel: a publisher makes one call at a time, and the order in which waiting receivers wake is not modelled.
- Reload.SharedPolicy: the lock and the reference counts around the policy; a policy is a value.
- Reload: each write is atomic and has a fresh modification time; reading the time never fails on an existing file; the metrics call is left out.
- Gate.ExecutorRunsExactly: the service answers an attempt by one version of the rules; loss or alteration of messages is part of the outcome of an attempt.
- Gate.ActionGate.ProcessAction: an audit event counts when it is handed to the sink, whatever the sink makes of it.
- Lifecycle: the profiles inside a sandbox config are named, not spelled out; manifest loading and validation; processes that a failed stop leaves alive.
- Runtime.RuntimeManager.List: a running process has its pid until an exit is noticed.
- Table.ParseBenchmarkCsv: the content is given as its lines, and the number and boolean parsers of a row are one function parameter.
- JSON, YAML and TOML parsing, gRPC transport, the metrics servers and the Prometheus text format, which are library plumbing.
- services/policy-engine/src/metrics.rs: the same histogram as in llmd.
- Model runtime, sandbox profiles, kernel profile, secrets, command line and scripts: constants, lookups and user interface.
