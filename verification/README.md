# Verified model of the ACBU backend's algorithms and protocols

The backend mints, burns and accounts for ACBU, a basket currency. Most of it is request handling and
storage; this project models the parts that carry an algorithm or a protocol, and proves what they promise.
`dafny verify dfyconfig.toml` checks everything.

| file | what it models |
|---|---|
| Apportionment.dfy | the largest-remainder split of a USDC amount over the currency basket |
| BasisPoints.dfy | rounding basket weights to 10000 basis points, and serving the stored basket |
| OnRamp.dfy | the on-ramp claim, retry and settle protocol as a state machine: safety over all runs |
| OnRampProgress.dfy | the same protocol: live messages, bounded attempts, a decreasing measure, settlement |
| OnRampConsumer.dfy | the two consumers statement by statement, each a run of the machine |
| Calendar.dfy | Gregorian day numbers (section 21.4.1 of ECMA-262) and calendar shifts |
| ZonedTime.dfy | wall-clock times against an arbitrary zone offset, and daily midnights |
| Csv.dfy | the CSV row printer and the CSV line parser |
| BulkTransfer.dfy | the chunked bulk-transfer job over a table with unique idempotency keys |
| UuidV7.dfy | UUIDv7 generation (section 5.7 of RFC 9562) |
| CircuitBreaker.dfy | the circuit breaker against its call history |
| LatencyHistogram.dfy | the latency histogram and its percentiles |
| ResumeStream.dfy | the resumable change stream across crashes |
| JtiDenyList.dfy | the single-use token list across instances |
| JtiAccepts.dfy | which calls accept a token, exactly, Redis failures included |
| Treasury.dfy | the treasury group-by |
| CardNumbers.dfy | replacing card-like numbers in strings |
| LogRedaction.dfy | redaction of log values over cyclic and shared object graphs |
| Sequences.dfy | sums, the stable sort, permutations |

Doubles and decimals are exact reals or integers throughout. The clock, random bytes, the zone offset, the key
digest, the row schema, the sensitive-key pattern and the answers of external services are parameters.

Code that updates state is a class or a method with a loop (`Backend`, `BulkTransferService`, `IdGenerator`,
`CircuitBreaker`, `LatencyHistogram`, `Consumer`, `Instance`, `Redactor`, and the loops of the apportionment,
the rounding, the zoned-time iteration, the line parser and the treasury); each is proved against a function or a
state machine, and the results below are about that function or machine.

## Where the code falls short of what it promises

The model follows the code. Each of these is proved: with an exact condition where one is named, and with concrete
runs or inputs.

- `calculateBasketDistribution` (comment at line 128 of src/jobs/usdcConversionJob.ts): with negative weights the
  bases can exceed the amount, and then the shares do too. Conservation holds exactly when the residual is not
  negative (`ConservationIff`; `SharesMayExceedAmount` is such a call).
- `getNextDailyMidnight` ("strictly after") and `getInitialDailyMidnight` ("still in the future"): the result can lie
  in the past in two families of cases, after a clock has been set back over midnight and before a clock skips
  midnight. `NextMidnightAcrossTransition` and `InitialMidnightAcrossTransition` give the exact conditions,
  `NextMidnightMayBePast` and `SkippedMidnightIsPast` show both families, on every day.
- `addCalendarDays`: years 0 to 99 are moved to the twentieth century by Date.UTC (`ZeroShift`).
- `generateId` ("handled correctly"): on counter overflow the id is stamped with the reading taken before the
  wait, so it is normally smaller than its predecessor (`OrderedIff` over whole traces, `OverflowReversesOrder`).
- `deriveIdempotencyKey`: fields are joined with a separator they may contain, so different transfers can share a
  key and the second is skipped (`SharedKeyIff`, `MovedSeparatorSharesKey`, `SecondIsSkipped`).
- `watchWithResumeToken` ("no events are missed"): true from the first stored token on. Before that a restart may
  skip events logged since the first stream was opened; `UnsavedRestartIff` says exactly when (`FirstTokenGap` and
  `FirstYieldGap` are runs).
- `consumeJti` ("exactly one instance can claim", "preserves the previous single-instance guarantee"): a token is
  accepted once for each of its SET NX that fails, and once more if a SET NX is its first command to reach Redis
  (`AcceptsExactly`), so more than once exactly when there are two of these; without failures and revocations exactly
  one call wins (`ExactlyOneAccepts`). Without an answer from Redis one instance accepts twice only when the calls
  overlap (`DoubleAcceptNeedsOutage`; `SiblingsBothAccept` and `OverlappingCallsBothAccept` are runs).
- `usdcConvertAndMint`: a pending deposit loses its last message exactly when the claim update of its only live copy
  fails on the last retry (`LostStepIff`, `PendingHasLiveIff`; `ClaimFaultsLoseTheMessage` is a run); a deposit stays
  in `processing` for good exactly when its holder crashes or cannot read, reject or release it (`StrandedIff`;
  `CrashStrandsForGood`); a swap or mint that goes unrecorded, because the call throws after it has taken effect or
  the update behind it fails, is repeated, and the count is exact (`UsdcSwapsOnce`, `MintsOncePerCompletion`).
- `CircuitBreaker`: a failure stamped 0 is taken for "no failure", and the breaker then stays open for good
  (`ZeroTimestampSticks`); HALF_OPEN lets every request through although the comment speaks of one
  (`TrialAdmitsEveryRequest`).

## Model

| member | source | states |
|---|---|---|
| Apportionment.CalculateBasketDistribution | src/jobs/usdcConversionJob.ts:56-161 | which inputs give the empty list, the single entry and the exception; otherwise one share per currency in basket order, with its weight, its atomic amount, and a decimal amount that is the atomic amount once multiplied by 10^decimals; the atomic total loses less than one unit of the amount, and the shares add up to it for every basket without negative weights |
| Apportionment.AllocateResidual | src/jobs/usdcConversionJob.ts:144-148 | the in-place loop with its wrapping index equals the unit-by-unit handout |
| Apportionment.TruncatesTowardsZero | src/jobs/usdcConversionJob.ts:116-118 | quotient and remainder of both signs: the quotient is the exact one cut off towards zero |
| Apportionment.SplitOverBasket | src/jobs/usdcConversionJob.ts:96-160 | fails exactly on a non-positive total weight; otherwise currency, weight, atomic and decimal amount of every share in basket order, conserved for non-negative weights |
| Apportionment.RankingIsPermutation | src/jobs/usdcConversionJob.ts:131-142 | the comparator orders the currencies totally: the ranking lists each once |
| Apportionment.LeftoverOrder | src/jobs/usdcConversionJob.ts:131-148 | who is served first: if a currency gets a leftover unit, so does every currency with a larger remainder, or the same remainder and a larger weight, or both equal and an earlier position |
| Apportionment.ConservationIff | src/jobs/usdcConversionJob.ts:127-149 | for every accepted basket, negative weights included, the shares sum to the amount if and only if the residual is not negative |
| Apportionment.SharesMayExceedAmount | src/jobs/usdcConversionJob.ts:56-161 | a call with weights 5, -1 and -1 that is accepted and hands out three stroops of two |
| Apportionment.NegativeWeightsBreakConservation | src/jobs/usdcConversionJob.ts:127-130 | the scaled weights of that call: the shares exceed the amount by one unit |
| Apportionment.Conservation | src/jobs/usdcConversionJob.ts:46-49 | with non-negative weights nothing is lost and nothing is invented |
| Apportionment.ResidualRange | src/jobs/usdcConversionJob.ts:128 | the residual is at least 0 and less than the number of currencies |
| Apportionment.ResidualBelowFractionalCount | src/jobs/usdcConversionJob.ts:144-147 | a positive residual is strictly less than the number of non-zero remainders, so the index never wraps; it is zero exactly when there are none |
| Apportionment.RecipientsAreFractional | src/jobs/usdcConversionJob.ts:131-147 | leftover units go only to currencies with a fractional quota |
| Apportionment.QuotaRule | src/jobs/usdcConversionJob.ts:115-149 | each share is the floor of the exact quota, or the ceiling of one that is not whole; weight zero gets nothing |
| Apportionment.QuotaDistance | src/jobs/usdcConversionJob.ts:115-149 | no share is a whole unit away from its exact quota |
| Apportionment.ExactQuota | src/jobs/usdcConversionJob.ts:115-149 | an exact quota is paid exactly |
| Apportionment.Monotone | src/jobs/usdcConversionJob.ts:131-142 | a larger weight, or an equal one at an earlier position, never gets the smaller share |
| Apportionment.PointwiseOptimal | src/jobs/usdcConversionJob.ts:115-149 | the threshold remainder as multiplier: no other integer does better at one currency |
| Apportionment.Optimal | src/jobs/usdcConversionJob.ts:115-149 | among all integer allocations of the same total the shares minimise the summed distance from the quotas |
| BasisPoints.RoundWeightsToExactBasisPoints | src/config/basket.ts:48-87 | the sort and in-place loop; the sum is checked before the range, each check fails exactly when it is violated, otherwise the weights sum to 100 |
| BasisPoints.MissingInRange | src/config/basket.ts:71-77 | once the sum check has passed the allocation exception cannot be raised |
| BasisPoints.OnlyFractionsMove | src/config/basket.ts:79-82 | only weights that are not whole basis points are rounded up |
| BasisPoints.LargerFractionFirst | src/config/basket.ts:79-82 | if a weight is rounded up, so is every weight with a larger fraction of a basis point |
| BasisPoints.ExactSum | src/config/basket.ts:44-47 | rounding succeeds and the result sums to exactly 100 percent |
| BasisPoints.RoundedWeight | src/config/basket.ts:61-86 | each result belongs to a given currency, is a whole number of basis points and has moved by less than one |
| BasisPoints.CurrenciesKept | src/config/basket.ts:56-86 | no currency is dropped, added or repeated |
| BasisPoints.WholeBasisPointsAreKept | src/config/basket.ts:48-87 | whole basis points summing to 100 percent are returned as given, order included |
| BasisPoints.Idempotent | src/config/basket.ts:48-87 | rounding twice changes nothing |
| BasisPoints.RoundedBasketIsServed | src/services/basket/basketService.ts:27-61 | a rounded basket stored as the newest passes the sum check and is served unchanged |
| BasisPoints.StoredBasketRejectedIff | src/services/basket/basketService.ts:37-55 | the stored basket is refused exactly when the newest weights sum to less than 99.995 or to 100.005 or more |
| BasisPoints.StoredBasketServed | src/services/basket/basketService.ts:37-60 | otherwise the rows of the newest date, in order, each weight moved to the nearest whole basis point, halves up |
| BasisPoints.DefaultIsServed | src/services/basket/basketService.ts:33-35 | without a stored basket the default one, which is itself a fixpoint of the rounding |
| OnRamp.StepIsSafe | src/jobs/usdcConvertAndMintJob.ts:91-199 | every step of every handler, faults and crashes included, keeps the protocol invariant |
| OnRamp.RunIsSafe | src/jobs/usdcConvertAndMintJob.ts:34-199 | the invariant holds over whole runs with any interleaving and duplication |
| OnRamp.OneHolderPerDeposit | src/jobs/usdcConvertAndMintJob.ts:97-102 | in every run at most one handler is between claim and settlement of a deposit, whose row is then processing |
| OnRamp.TerminalIsAbsorbing | src/jobs/usdcConvertAndMintJob.ts:99-102 | no part of a completed or failed deposit ever changes again |
| OnRamp.BooksCountEffects | src/jobs/usdcConvertAndMintJob.ts:134-176 | the per-deposit books equal the number of swap, mint and failure events in the run |
| OnRamp.UsdcSwapsOnce | src/jobs/usdcConvertAndMintJob.ts:134-161 | swaps, those included whose call then threw, exceed unrecorded swaps by at most one, and by exactly one for a completed deposit or one whose XLM amount is stored; so a completed deposit was swapped exactly once if and only if no swap went unrecorded |
| OnRamp.MintsOncePerCompletion | src/jobs/usdcConvertAndMintJob.ts:164-176 | mints, those included whose call then threw, exceed unrecorded mints by exactly one for completed deposits and not at all for failed ones |
| OnRamp.XlmMintsOnce | src/jobs/xlmToAcbuJob.ts:81-151 | the mint of an XLM deposit is called at most once in every run |
| OnRampProgress.LostStepIff | src/jobs/usdcConvertAndMintJob.ts:65-109 | exactly which steps cost a pending deposit its last live message, and which give one back, for both limits: fewer than MAX_RETRIES retries, and all retries the broker keeps |
| OnRampProgress.LostIff | src/jobs/usdcConvertAndMintJob.ts:48-83 | over whole runs, when a deposit ends up pending without a message |
| OnRampProgress.PendingHasLiveIff | src/jobs/usdcConvertAndMintJob.ts:48-83 | a pending deposit has a live message throughout a run if and only if the claim update of its only live copy never fails on the last retry |
| OnRampProgress.PendingAlwaysHasLive | src/jobs/usdcConvertAndMintJob.ts:48-83 | while no claim update fails on the last retry, every pending deposit has a message that can still claim it, across crashes, duplicates and all other faults |
| OnRampProgress.StrandedStepIff | src/jobs/usdcConvertAndMintJob.ts:99-198 | a step leaves a deposit in processing without a handler exactly when it was so before, or its holder crashes or fails to read, reject or release it |
| OnRampProgress.StrandedIff | src/jobs/usdcConvertAndMintJob.ts:99-198 | over whole runs: stranded exactly when some step has stranded it, so nothing ever frees it |
| OnRampProgress.CrashStrandsForGood | src/jobs/usdcConvertAndMintJob.ts:99-117 | a crash between claim and settlement, and every continuation of it |
| OnRampProgress.RunKeepsCalm | src/jobs/usdcConvertAndMintJob.ts:186-198 | without stranding faults a processing row always has its handler, and a used-up message belongs to a settled deposit |
| OnRampProgress.AttemptsAreBounded | src/jobs/usdcConvertAndMintJob.ts:51-81 | in every run, whatever fails, at most MAX_RETRIES attempts each time the broker hands a message out, so MAX_RETRIES without duplicates and crashes |
| OnRampProgress.WorkDecreasesMeasure | src/jobs/usdcConvertAndMintJob.ts:51-84 | every handler step decreases the measure |
| OnRampProgress.WorkIsBounded | src/jobs/usdcConvertAndMintJob.ts:51-84 | the number of handler steps from a state is bounded by its measure, faults or not |
| OnRampProgress.CanProceed | src/jobs/usdcConvertAndMintJob.ts:40-84 | a message that is not gone can always make a step that is not a fault |
| OnRampProgress.EveryDepositSettles | src/jobs/usdcConvertAndMintJob.ts:26-31 | from every reachable state, with any faults, handling ends within the measure, and then a deposit is completed or failed if and only if no step has stranded it and its last message is not lost |
| OnRampProgress.UnharmedDepositSettles | src/jobs/usdcConvertAndMintJob.ts:26-31 | so a deposit settles whatever happens to other deposits, and whatever fails before its last retry |
| OnRampProgress.ClaimFaultsLoseTheMessage | src/jobs/usdcConvertAndMintJob.ts:65-83 | a run of failing claims after which a pending deposit has no message left |
| OnRampConsumer.Backend.Claim | src/jobs/usdcConvertAndMintJob.ts:99-117 | the conditional update claims exactly the matching pending row; when it or the reading behind it throws, and what is left then |
| OnRampConsumer.Backend.SwapOrResume | src/jobs/usdcConvertAndMintJob.ts:129-161 | a recorded swap is not repeated; one that throws, or whose record does, releases or fails the row, and counts as a swap only if it has moved funds |
| OnRampConsumer.Backend.MintAndComplete | src/jobs/usdcConvertAndMintJob.ts:164-198 | completion, or release or failure by the remaining retries, whatever fails, and whether a mint has happened |
| OnRampConsumer.Backend.ProcessUsdcConvertAndMint | src/jobs/usdcConvertAndMintJob.ts:91-199 | the complete effect of one handling on its row and on no other, faults included, exactly when it throws, and that it is a run of the protocol |
| OnRampConsumer.Backend.ProcessXlmToAcbu | src/jobs/xlmToAcbuJob.ts:63-152 | completed or failed, never pending again; nothing when the claim is lost |
| OnRampConsumer.Backend.Answer | src/jobs/usdcConvertAndMintJob.ts:52-83 | acked, requeued with one more retry, or dead-lettered |
| OnRampConsumer.Backend.Consume | src/jobs/usdcConvertAndMintJob.ts:40-85 | the whole delivery, for every answer of the database, the swap and the mint: row outcome and effect counts of its deposit, no other row touched, and the message gone, with one copy of one more retry joining exactly when the handling threw and fewer than MAX_RETRIES have been used; with the database up, untouched if not claimable, otherwise completed, failed or pending again by amount, swap, mint and final attempt |
| Calendar.YearFormulaIsExact | src/utils/dateUtils.ts:82 | counting whole years agrees with the day-number formula of the standard, before and after the epoch |
| Calendar.MonthLengths | src/utils/dateUtils.ts:82 | which day numbers a month has, February by the rule of 4, 100 and 400 |
| Calendar.EpochIsDayZero | src/utils/dateUtils.ts:82 | day zero is 1 January 1970 |
| Calendar.DayRoundTrip | src/utils/dateUtils.ts:82-87 | day number to date to day number is the identity |
| Calendar.DateRoundTrip | src/utils/dateUtils.ts:82-87 | valid date to day number to date is the identity |
| Calendar.DayOrder | src/utils/dateUtils.ts:81-88 | day numbers order valid dates as year, month and day do |
| Calendar.ShiftIsDayAddition | src/utils/dateUtils.ts:81-88 | a calendar shift adds to the day number, whatever months and years it crosses |
| Calendar.ShiftsCompose | src/utils/dateUtils.ts:81-88 | adding a and then b is adding a + b |
| Calendar.ZeroShift | src/utils/dateUtils.ts:81-88 | adding nothing is the identity if and only if the year is not one of 0 to 99 |
| Calendar.ShiftOrder | src/utils/dateUtils.ts:81-88 | the result is later exactly for positive shifts |
| Calendar.ShiftBack | src/utils/dateUtils.ts:81-88 | the opposite shift leads back |
| ZonedTime.ZonedDateTimeToUtc | src/utils/dateUtils.ts:100-126 | the method computes the iterated correction |
| ZonedTime.PartsInRange | src/utils/dateUtils.ts:51-75 | the parts read are the day, and an hour, minute and second in range that make up its time |
| ZonedTime.CorrectGuess | src/utils/dateUtils.ts:109-123 | the loop of three corrections |
| ZonedTime.PartsRoundTrip | src/utils/dateUtils.ts:51-75 | whole-second wall time read as parts and recombined by Date.UTC is unchanged from year 100 on |
| ZonedTime.ThreeCorrections | src/utils/dateUtils.ts:109-125 | the code's iteration is the plain fixed-point iteration on offsets |
| ZonedTime.ReachesWantedTime | src/utils/dateUtils.ts:99-126 | with at most one transition, either way, the result shows the wanted time if and only if that time exists; in a gap it is off by the size of the gap |
| ZonedTime.NextMidnight | src/utils/dateUtils.ts:145-164 | with a constant offset the next midnight is strictly later and at most one day later, and the initial midnight is the same instant |
| ZonedTime.NextMidnightShows | src/utils/dateUtils.ts:146-151 | it shows 00:00:00 on the next calendar day |
| ZonedTime.NextMidnightAcrossTransition | src/utils/dateUtils.ts:145-151 | across one transition either way: the result shows the next midnight if and only if that midnight exists, and exactly when it is strictly after the given instant |
| ZonedTime.NextMidnightMayBePast | src/utils/dateUtils.ts:145-151 | for a clock set back at half past midnight, on every day, the next and the initial midnight can be in the past |
| ZonedTime.InitialMidnightAcrossTransition | src/utils/dateUtils.ts:153-165 | across one transition, which midnight the initial midnight is, and exactly when it is strictly after the given instant |
| ZonedTime.TodaysMidnightAcrossTransition | src/utils/dateUtils.ts:156-160 | exactly when the midnight that starts today counts as still to come, and when it shows that midnight |
| ZonedTime.SkippedMidnightIsPast | src/utils/dateUtils.ts:145-151 | for a clock set forward at midnight, on every day, so can those of the evening before |
| Csv.ParseCsvLine | src/services/enterpriseService.ts:49-79 | the loop computes the field function, and recovers every printed row |
| Csv.WrittenIsRead | src/services/enterpriseService.ts:49-79 | any line, printed here or not: a field of plain and quoted stretches in any order is read as their texts, doubled quotes as one |
| Csv.UnclosedQuote | src/services/enterpriseService.ts:49-79 | a quote that is never closed takes the rest of the line |
| Csv.RoundTrip | src/controllers/reportController.ts:20-31 | parsing a printed row returns its fields, whatever characters they contain, null as the empty string |
| Csv.RoundTripIff | src/controllers/reportController.ts:62 | only the empty row does not come back |
| Csv.PrintIsInjective | src/controllers/reportController.ts:62 | equal printed lines come from equal texts |
| Csv.RowIsOneLine | src/controllers/reportController.ts:25-27 | a printed row closes every quote it opens and has line breaks only inside quotes |
| Csv.NormalFormIsStable | src/services/enterpriseService.ts:49-79 | any line means the same after parsing, printing and parsing again |
| BulkTransfer.BulkTransferService.ProcessBulkTransfer | src/services/enterpriseService.ts:222-333 | for every chunk size the table, the counts, the reports and the stored job are those of one pass over the rows; every result fits its row, and each successful one names an entry of the table with recipient and amount of that row; the failure report lists the failures and the stored report the non-successes, each once in row order; the counts add up and the table grows by the successes; a refused job leaves the table alone and stays in processing, counting the whole chunks before the first valid row |
| BulkTransfer.BulkTransferService.ProcessChunks | src/services/enterpriseService.ts:257-305 | the chunk loop, with the job record after the last chunk, and where a row that throws stops it |
| BulkTransfer.BulkTransferService.ProcessChunk | src/services/enterpriseService.ts:260-290 | one chunk equals one pass over its rows |
| BulkTransfer.BulkTransferService.GetBulkTransferJob | src/services/enterpriseService.ts:343-366 | nothing for foreign jobs; otherwise the stored counts, the persisted report and the skipped count recovered from it |
| BulkTransfer.PassConcat | src/services/enterpriseService.ts:257-292 | splitting the file anywhere makes no difference |
| BulkTransfer.OnePassResults | src/services/enterpriseService.ts:261-289 | results in row order 0..n-1, unique keys, the table extended by exactly the successful rows |
| BulkTransfer.OnePassFits | src/services/enterpriseService.ts:114-216 | for every file, what each result says of its row and the final table: key, message, and the entry it names, which a success has completed with recipient and amount of the validated row |
| BulkTransfer.CarriedOutIff | src/services/enterpriseService.ts:114-216 | a row is carried out if and only if there is a sender, it is valid, and its key is neither in the table nor that of an earlier valid row |
| BulkTransfer.RecordedKeysIff | src/services/enterpriseService.ts:161-172 | the keys in the table afterwards: those before, and those of the valid rows if there is a sender |
| BulkTransfer.CountsAddUp | src/services/enterpriseService.ts:294-295 | success, failure and skipped add up to the rows |
| BulkTransfer.SharedKeyIff | src/services/enterpriseService.ts:36-47 | with a digest that never collides, exactly which rows share a key: those whose fields, cut at every separator, are the same pieces |
| BulkTransfer.KeyDeterminesRow | src/services/enterpriseService.ts:36-47 | with equally many separators in each field, and in particular with none, a key determines its row |
| BulkTransfer.MovedSeparatorSharesKey | src/services/enterpriseService.ts:36-47 | two different transfers with one key |
| BulkTransfer.SecondIsSkipped | src/services/enterpriseService.ts:132-148 | for every table, file and pair of rows that share a key: the later row is skipped, or fails where there is no sender to carry out either |
| BulkTransfer.RacedRowIsSafe | src/services/enterpriseService.ts:114-216 | whatever a concurrent job inserts between lookup and insert, keys stay unique, only a fresh key is inserted, and the entry carries out its row |
| BulkTransfer.Rerun | src/services/enterpriseService.ts:132-148 | the same file again creates nothing: failures fail again, everything else is skipped |
| BulkTransfer.UnauthorizedIff | src/services/enterpriseService.ts:120-122 | the job is refused for want of a sender exactly when some row passes the schema |
| BulkTransfer.ReportKeepsSkipped | src/services/enterpriseService.ts:308-319 | the persisted report keeps every skipped row |
| BulkTransfer.KeepSelects | src/services/enterpriseService.ts:307-311 | filtering the results selects exactly those with the status, in row order |
| UuidV7.IdGenerator.GenerateId | src/utils/idGenerator.ts:79-134 | how the counter moves in each of the three cases; the id can be read back as timestamp, version, counter and random part, is well formed and, without overflow on a clock that does not go back, greater than every id already passed |
| UuidV7.IdOrder | src/utils/idGenerator.ts:110-133 | ids compare like timestamp and counter, and by the random part only when those agree |
| UuidV7.IdIsWellFormed | src/utils/idGenerator.ts:118-124 | hyphens in place, version 7, variant 10 |
| UuidV7.IdReadsBack | src/utils/idGenerator.ts:110-134 | without its hyphens the id is 32 hexadecimal digits, which read back as timestamp, 7, counter, variant and the random bits |
| UuidV7.HyphensKeepOrder | src/utils/idGenerator.ts:159-172 | formatting keeps the order of the hexadecimal strings |
| UuidV7.LeadingDigits | src/utils/idGenerator.ts:112-120 | the first 64 bits are timestamp, version and counter, big-endian |
| UuidV7.IdsStrictlyIncrease | src/utils/idGenerator.ts:73-75 | over any trace every id is strictly greater than all earlier ones |
| UuidV7.OrderedIff | src/utils/idGenerator.ts:91-114 | over every trace on a clock that does not go back, overflows included: all ids increase if and only if no call overflows right after one that did not, save for a maximal seed and lucky random parts |
| UuidV7.OverflowReversesOrder | src/utils/idGenerator.ts:91-112 | two calls in one millisecond whose ids are in the wrong order |
| CircuitBreaker.CircuitBreaker.CanExecute | src/utils/circuitBreaker.ts:36-52 | the transition and the answer; only an open breaker refuses, and only it is changed by a request |
| CircuitBreaker.CircuitBreaker.RecordSuccess | src/utils/circuitBreaker.ts:57-67 | the transition |
| CircuitBreaker.CircuitBreaker.RecordFailure | src/utils/circuitBreaker.ts:72-82 | the transition |
| CircuitBreaker.CircuitBreaker.GetState | src/utils/circuitBreaker.ts:87-96 | the transition and the reported mode |
| CircuitBreaker.CircuitBreaker.Reset | src/utils/circuitBreaker.ts:101-106 | back to the initial state |
| CircuitBreaker.CircuitBreaker.SwitchTo | src/utils/circuitBreaker.ts:125-152 | which counters a transition resets |
| CircuitBreaker.ClosedCount | src/utils/circuitBreaker.ts:57-82 | the failure count of a closed breaker is the number of failures since counting last restarted |
| CircuitBreaker.OpensExactlyOnThreshold | src/utils/circuitBreaker.ts:72-82 | a closed breaker opens exactly on the threshold-th such failure |
| CircuitBreaker.RefusedIff | src/utils/circuitBreaker.ts:36-52 | over every history a request is refused if and only if the breaker is open and its latest failure has not recovered |
| CircuitBreaker.RequestsOnlyWake | src/utils/circuitBreaker.ts:36-52 | a request or a look at the state does nothing but end a cooldown that is over |
| CircuitBreaker.RefusesDuringCooldown | src/utils/circuitBreaker.ts:41-48 | while open, on any clock, execution is refused exactly until the cooldown after the latest failure is over, and for good if that failure is stamped 0 |
| CircuitBreaker.StaysOpenIff | src/utils/circuitBreaker.ts:41-48 | in every continuation without failure or reset the breaker is still open if and only if no call looked at the clock after the cooldown |
| CircuitBreaker.ClosesExactlyOnThreshold | src/utils/circuitBreaker.ts:57-62 | without reset it closes exactly on the threshold-th success of a trial without failures, and never directly from open |
| CircuitBreaker.TrialAdmitsEveryRequest | src/utils/circuitBreaker.ts:50-51 | a trial lets any number of requests through and goes on unchanged |
| CircuitBreaker.ZeroTimestampSticks | src/utils/circuitBreaker.ts:43 | after a failure stamped 0 the breaker stays open in every continuation without failure or reset |
| LatencyHistogram.LatencyHistogram.Record | src/middleware/metrics.ts:34-47 | buckets, window, count and sum stay those of the recorded durations |
| LatencyHistogram.LatencyHistogram.TakeSnapshot | src/middleware/metrics.ts:59-80 | each cumulative bucket counts the durations up to its boundary, from 5 to 10000, since the last reset, the last equals the count; the percentiles are ordered, and 0 with nothing recorded |
| LatencyHistogram.Accumulate | src/middleware/metrics.ts:60-69 | the cumulative loop |
| LatencyHistogram.LatencyHistogram.Reset | src/middleware/metrics.ts:82-87 | nothing recorded |
| LatencyHistogram.PercentileIsLeast | src/middleware/metrics.ts:49-57 | a percentile is the least window element with at least p percent of the window at or below it |
| LatencyHistogram.PercentilesAreOrdered | src/middleware/metrics.ts:49-57 | percentiles increase with p |
| ResumeStream.AtLeastOnceInOrder | src/config/mongodb.ts:144-172 | in every run, from every save on: the later events in log order, none skipped, at most one repetition per crash |
| ResumeStream.ReachesEvent | src/config/mongodb.ts:159-168 | every logged event is yielded after finitely many steps |
| ResumeStream.RunIsSound | src/config/mongodb.ts:144-172 | in every run the stream stands right behind the stored token, and the output is in order |
| ResumeStream.UnsavedRestartIff | src/config/mongodb.ts:149-152 | in every run, counted from the log position at which the first stream was opened: every event up to the last yielded one has been yielded if and only if no stream opened without a token, when an event still owed had been logged, has yielded anything |
| ResumeStream.FirstYieldGap | src/config/mongodb.ts:149-152 | a run that loses two events before the first is yielded |
| ResumeStream.FirstTokenGap | src/config/mongodb.ts:149-152 | a run that loses an event before the first token |
| ResumeStream.Consumer.WatchWithResumeToken | src/config/mongodb.ts:144-172 | the generator yields consecutive events from its starting point and stores the last token, as a run of the machine |
| JtiDenyList.TtlSeconds | src/utils/jtiDenyList.ts:50-53 | the least number of seconds that is at least one and does not end before the token expires |
| JtiDenyList.Instance.PruneExpired | src/utils/jtiDenyList.ts:36-43 | the loop keeps exactly the entries that have not expired |
| JtiDenyList.Instance.ConsumeJti | src/utils/jtiDenyList.ts:103-125 | for an uninterrupted call, exactly when the token is accepted, and what the call leaves in both stores |
| JtiDenyList.Instance.RevokeJti | src/utils/jtiDenyList.ts:84-93 | what revocation leaves in both stores |
| JtiDenyList.Instance.IsJtiRevoked | src/utils/jtiDenyList.ts:131-146 | the answer, with and without Redis |
| JtiDenyList.StepIsSafe | src/utils/jtiDenyList.ts:84-146 | every step of every instance, failing and late Redis calls included, keeps claimed tokens denied until they expire |
| JtiDenyList.SingleUseInEveryRun | src/utils/jtiDenyList.ts:95-102 | in every interleaving a token is claimed at most once before it expires, and until then every instance answers revoked |
| JtiDenyList.ClaimHoldsUntilExpiry | src/utils/jtiDenyList.ts:103-146 | from the claim on, whatever follows, every instance answers revoked until the token expires |
| JtiDenyList.PruningIsInvisible | src/utils/jtiDenyList.ts:36-43 | pruning changes no answer |
| JtiDenyList.DoubleAcceptNeedsOutage | src/utils/jtiDenyList.ts:103-125 | in every run, two accepts of a token decided before it expires mean that a SET NX failed, and on one instance that the second call began before the first returned |
| JtiAccepts.ClaimWinsIff | src/utils/jtiDenyList.ts:109-116 | a SET NX wins the claim before the expiry if and only if no command for the token has reached Redis before |
| JtiAccepts.LocallyKnownIff | src/utils/jtiDenyList.ts:103-123 | before the expiry an instance knows a token if and only if it has accepted or revoked it |
| JtiAccepts.RefusedAtOnceIff | src/utils/jtiDenyList.ts:104-107 | and then, only then, consumeJti refuses it without asking Redis |
| JtiAccepts.RevokedIff | src/utils/jtiDenyList.ts:131-146 | what isJtiRevoked answers before the expiry: whether the instance has accepted or revoked the token, or a command for it has reached Redis |
| JtiAccepts.AcceptsExactly | src/utils/jtiDenyList.ts:103-125 | in every run the number of accepts of a token before it expires is the number of its failed SET NX, plus one if a SET NX is its first command to reach Redis; so when it is more than one |
| JtiAccepts.ExactlyOneAccepts | src/utils/jtiDenyList.ts:95-102 | without failures and revocations exactly one call accepts, once a SET NX has arrived in time |
| JtiDenyList.AcceptingInstanceRemembers | src/utils/jtiDenyList.ts:117-124 | with or without Redis, an instance refuses what it has accepted until it expires |
| JtiDenyList.OverlappingCallsBothAccept | src/utils/jtiDenyList.ts:105-123 | two overlapping calls during an outage, on one instance or two, both accept |
| JtiDenyList.SiblingsBothAccept | src/utils/jtiDenyList.ts:117-124 | so do two calls one after the other on two instances |
| Treasury.GetOrderedCurrencies | src/controllers/governmentController.ts:109-121 | a duplicate-free enumeration, preferred currencies first in the order of their first occurrence, the rest sorted |
| Treasury.StringLeIff | src/controllers/governmentController.ts:120 | the order of the rest: smaller at the first difference, or a prefix |
| Treasury.GetGovernmentTreasury | src/controllers/governmentController.ts:202-308 | every row has the weight of its currency in the basket, the sums of its mints and burns, and its latest reserves in both segments; the balance is the sum of the rows plus the transactions without a currency; segment totals and exposure are those of all latest reserves; one row per currency, basket order first |
| Treasury.CollectTransactions | src/controllers/governmentController.ts:223-246 | the grouping loop and the running total |
| Treasury.CollectReserves | src/controllers/governmentController.ts:206-211 | the reserve loop |
| Treasury.GroupingConserves | src/controllers/governmentController.ts:252-279 | totals by key, each key listed once, add up to the total of the items |
| Treasury.GroupFits | src/controllers/governmentController.ts:223-246 | the four totals of a currency are the sums over its transactions: mints and burns, in ACBU and in local currency |
| Treasury.BalanceIsConserved | src/controllers/governmentController.ts:223-279 | no transaction is lost or counted twice by the grouping |
| Treasury.ReserveKeyInjective | src/controllers/governmentController.ts:123-134 | the concatenated key determines currency and segment |
| Treasury.LookupIsKeyed | src/controllers/governmentController.ts:206-211 | a lookup finds the value of exactly its currency and segment |
| Treasury.LookupFits | src/controllers/governmentController.ts:206-211 | amount and USD value found are those of the latest reserve of that currency and segment, nothing where there is none |
| Treasury.TargetWeightFits | src/controllers/governmentController.ts:198-200 | the weight of the last basket entry of the currency, nothing where there is none |
| Treasury.ReservesAreConserved | src/controllers/governmentController.ts:295-304 | every latest reserve is counted exactly once |
| Treasury.SegmentsAreConserved | src/controllers/governmentController.ts:299-303 | so is it in its segment |
| CardNumbers.MatchIsWord | src/config/logRedaction.ts:3 | the pattern matches exactly whole words of 13 to 19 digits |
| CardNumbers.RedactedIsCardFree | src/config/logRedaction.ts:10-12 | no match is left, also none created by the replacement |
| CardNumbers.RedactionIff | src/config/logRedaction.ts:10-12 | redaction changes exactly the strings that contain a match |
| CardNumbers.MatchIsReplaced | src/config/logRedaction.ts:10-12 | at any match: the redacted text before it, the marker, the redacted text behind it |
| CardNumbers.OtherTextSurvives | src/config/logRedaction.ts:10-12 | with a single match, everything else stays as it is |
| CardNumbers.RedactTwice | src/config/logRedaction.ts:10-12 | redacting twice changes nothing |
| LogRedaction.Redact | src/config/logRedaction.ts:37-69 | terminates on every finite graph and only adds to the visited objects |
| LogRedaction.Redactor.RedactLogValue | src/config/logRedaction.ts:37-69 | the recursion with the mutated visited set computes the same tree and set |
| LogRedaction.ResultIsCleared | src/config/logRedaction.ts:36-69 | no string value of the result contains a card-like number, and sensitive keys show the marker only |
| LogRedaction.ResultShows | src/config/logRedaction.ts:37-69 | the result mirrors the value, element by element and property by property, with the marker under sensitive keys and redacted strings, and visits every object once |
| LogRedaction.CircularIff | src/config/logRedaction.ts:55-58 | an object is shown as circular if and only if it has been seen |
| LogRedaction.SensitiveValuesDoNotLeak | src/config/logRedaction.ts:42-44 | graphs that differ only under sensitive keys give the same result |
| LogRedaction.RedactingAgainChangesNothing | src/config/logRedaction.ts:37-69 | redacting a result again, however it is stored, changes nothing |
| LogRedaction.ResultIsAFixpoint | src/config/logRedaction.ts:37-69 | every result can be stored and redacted again, and comes out as it went in |

## Left out

- Apportionment.CalculateBasketDistribution: the `amount` field (a double) and the limited precision of decimal arithmetic are not modelled; amounts and weights are exact.
- BasisPoints.RoundWeightsToExactBasisPoints: the exception messages and the currency named in them are not modelled, and binary rounding of the sums is excluded.
- OnRampConsumer.Backend.Consume: message bodies that do not parse, and a row that disappears after its claim, are not modelled.
- OnRampConsumer.Backend.ProcessXlmToAcbu: the rate lookup before the claim is not modelled; it returns a number or nothing and does not throw.
- OnRamp.MintsOncePerCompletion: the compensating burn that mintFromUsdcInternal attempts when its own record fails is not modelled; the mint counts as made.
- ZonedTime.ReachesWantedTime: offsets and transitions are whole seconds, wall-clock years are at least 100, and the window around the wanted time holds at most one transition; the same goes for the midnights across a transition.
- BulkTransfer.BulkTransferService.ProcessBulkTransfer: works on parsed rows; the size limit, reading the buffer, the header check and database faults are not modelled, and the chunk size is at least 1 because the source loops forever on 0.
- BulkTransfer.OnePassFits: the user, organization, type and time written into a transaction are copied from the request or the clock and not modelled.
- UuidV7.IdGenerator.GenerateId: the busy-wait is represented by the clock reading that ends it.
- ResumeStream.AtLeastOnceInOrder: one generator per consumer name at a time, and the log still holds the event of the stored token.
- UuidV7.OrderedIff: a clock that goes back is excluded, as in the promise; ids are then stamped with the earlier reading.
- JtiDenyList.SingleUseInEveryRun: the expiry is a function of the token id, and the clocks of the instances agree.
- JtiDenyList.Instance.ConsumeJti: stated for a call during whose await no other call of the instance runs; overlapping calls are steps of the state machine (`AcceptsExactly`, `DoubleAcceptNeedsOutage`).
- LogRedaction.ResultIsCleared: speaks of strings; a card number held as a JavaScript number passes through the source unredacted, as do property names; the format wrapper that exempts `level`, `timestamp` and `message` is not modelled.
- Splitting a whole CSV document into lines: it happens before quotes are read and trims trailing blanks, so only the line level is an inverse.
- src/jobs/usdcConversionJob.ts, claim, release and the per-currency purchases: the same claim as the on-ramp with weaker guarantees, since a failure in the middle repeats earlier purchases and early returns keep the claim.
- `addCalendarMonths`, `getStartOfZonedMonth` and time-zone validation: thin wrappers with unclear month overflow.
- `generateCorrelationId`, metrics export, logging and the treasury cache: wiring.
- Routes, schemas, storage engines, brokers, the blockchain and all other services: external to the algorithms here.
