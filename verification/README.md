# lowertier, modelled in Dafny

This project models four parts of lowertier and proves what each of them is for.

**Packet filter** (`AclModel`, `AclAgreement`, `AclTables`, `AclUpkeep`, `AclProcessor`, `AclCompile`,
`AclMeaning`, `AclWhitelist`, `Bits`). A first-match filter compiled from chains, behind a per-flow cache, next to rate-limit
buckets, connection tracking and counters, with a timed cleanup. The class `Processor` follows the program's
methods; the specification is a cached step and a cacheless reference step on the same tables. The main results
are two exact conditions. The cache is invisible over every run if and only if port presence is determined by
the flow, because port 0 and no port share a cache key. What a verdict means is stated on the configuration: which
rule wins, and which packets a rule applies to, field by field and network by network in bits. No run panics if and only if the two halves of a cleanup
tick are at most five seconds apart, the margin between the two lifetimes.

**Least squares** (`LinearSolve`, `Nnls`, `NnlsExact`). Gauss-Jordan elimination and the enumeration of active
faces, over exact reals and with the pivot threshold as a parameter. With the threshold read as a zero test
both are exact, for any number of rows and any rank. With a positive threshold the fit is optimal if every face
that the pivot test rejects has a null vector; for a design without a null vector all observations are fitted
optimally if and only if every face passes the test.

**Asynchronous operations** (`AsyncOps`, `AsyncEndings`). The operation and handle tables behind the C interface as an
interleaving transition system, with removal from the table and change of state as separate atomic steps and
a readers-writer lock. Safety is proved thread by thread: each step keeps the world and never disturbs what
another thread relies on. Over every run each operation is then taken out of the table once and delivered once,
and what status and finish calls tell is decided by the first end of the operation among the steps of the run.

**Tracker** (`Bencode*`, `HttpReply`, `HttpResponses`, `UrlData`, `Tracker*`, `Rotation`, `RateLimit`,
`Binding*`). The bencode reader, first as functions of the bytes and an offset and then as the program's object
with a moving offset; what it reads from any response of well-formed pairs; the server's reply and its round trip;
the URL options of BEP 41; the announce store against the history of announces, with the exact condition for a
refusal; per-second limits against what was granted; the fairness of rotating replies; and the STUN
responder with its Python twin.

`Prelude`, `Net` and `Decimal` hold machine integers, addresses with their order, and decimal numerals.
`dafny verify dfyconfig.toml` checks everything.

Conventions. Bytes, ports and counters are ranges of integers; 64-bit counters wrap because release builds
switch overflow checks off. Clock readings, the eviction order of a hash map and the result of spawned work
are parameters of a step, and so is the number of tokens of a refill. The text forms of addresses and UTF-8
validity are parameters as well. Where code and comments disagree the code is followed: the solver's
documentation calls it exact, but the code refuses pivots below 1e-30 (`Nnls.MissTinyOptimum`).

## Model

| member | source | states |
|---|---|---|
| `AclAgreement.AgreesExactly` | lowertier/src/common/acl_processor.rs:151-169 | for any set of packets, the cached processor and a cacheless scan agree on every verdict, priority, bucket, tracked connection and counter over every configuration and every timely run if and only if packets of one flow agree on which ports they have |
| `AclAgreement.ExtractedPacketsAgree` | lowertier/src/peers/acl_filter.rs:215-298 | so for the packets the filter builds, whose ports are present exactly for TCP and UDP, the cache is never visible |
| `AclAgreement.RunAgrees` | lowertier/src/common/acl_processor.rs:605-740 | the sufficient half, run by run: same verdicts and same tables as the reference, from any sound cache |
| `AclAgreement.StepAgrees` | lowertier/src/common/acl_processor.rs:605-740 | one step of any kind keeps the tables equal and the cache sound |
| `AclAgreement.SameKeySameMatch` | lowertier/src/common/acl_processor.rs:151-169 | packets with one cache key match the same rules, also where groups are left out of the key because no rule names any |
| `AclAgreement.SameKeySameEntry` | lowertier/src/common/acl_processor.rs:645-740 | packets with one cache key get the same entry from a scan |
| `AclAgreement.ReplayMatchesScan` | lowertier/src/common/acl_processor.rs:558-582 | replaying an entry draws, tracks and counts exactly as the scan that made it would |
| `AclAgreement.MissKeepsSound` | lowertier/src/common/acl_processor.rs:635-740 | a miss stores an entry that explains every packet with its key |
| `AclAgreement.InsertOnlyDrops` | lowertier/src/common/acl_processor.rs:752-761 | a cache insert adds its own entry and otherwise only drops entries |
| `AclAgreement.SharedKeyDisagrees` | lowertier/src/common/acl_processor.rs:163-164 | the necessary half: whenever port 0 and no port share a key there is a rule for which the cached verdict is wrong |
| `AclAgreement.SecondPacketReplays` | lowertier/src/common/acl_processor.rs:614-618 | a second packet of an unlimited flow gets the first one's verdict |
| `AclAgreement.SecondPacketRescans` | lowertier/src/common/acl_processor.rs:645-740 | the reference gives it its own |
| `AclAgreement.PanicFreeExactly` | lowertier/src/common/acl_processor.rs:501-530 | no timely run ever panics if and only if the two halves of a cleanup tick are at most 5 s apart |
| `AclAgreement.RunKeepsAlive` | lowertier/src/common/acl_processor.rs:563-581 | over every timely run each cached entry has a result and a live bucket, so no cache hit finds a bucket gone |
| `AclAgreement.PacketKeepsAlive` | lowertier/src/common/acl_processor.rs:605-740 | a packet, hit or miss, keeps every entry's buckets alive |
| `AclAgreement.HitKeepsAlive` | lowertier/src/common/acl_processor.rs:558-582 | a cache hit with live buckets completes and renews them |
| `AclAgreement.DrawRenews` | lowertier/src/common/acl_processor.rs:882-913 | drawing tokens leaves every bucket in place, stamped as before or now |
| `AclAgreement.LateSweepCrashes` | lowertier/src/common/acl_processor.rs:501-511 | for every gap above 5 s a concrete run panics |
| `AclAgreement.LateSweepIsTimely` | lowertier/src/common/acl_processor.rs:501-511 | and that run respects the gap |
| `AclAgreement.LateSweepDropsBucket` | lowertier/src/common/acl_processor.rs:501-556 | a cache sweep keeps an unexpired entry while a late limiter sweep drops its bucket |
| `AclModel.ScanFrom` | lowertier/src/common/acl_processor.rs:645-652 | the scan stops at the first matching rule and nowhere before; what a match is, is stated by AclCompile.MatchIsMeaning |
| `AclProcessor.Processor.constructor` | lowertier/src/common/acl_processor.rs:348-403 | starts with an empty cache over the given tables |
| `AclProcessor.Processor.ProcessPacket` | lowertier/src/common/acl_processor.rs:605-740 | the whole new state and the result are those of one cached step; an insert that overflows the cache evicts the oldest entries |
| `AclProcessor.Processor.ProcessWithCacheEntry` | lowertier/src/common/acl_processor.rs:558-582 | replays an entry as the specification's hit does, panic included |
| `AclProcessor.Processor.ApplyRule` | lowertier/src/common/acl_processor.rs:645-703 | a matching rule is limited, tracked, counted and cached in the specified order |
| `AclProcessor.Processor.CommitRule` | lowertier/src/common/acl_processor.rs:666-702 | a match within its limit is tracked, counted and cached |
| `AclProcessor.Processor.LimitRule` | lowertier/src/common/acl_processor.rs:651-664 | a limited rule draws one token from its own bucket, others draw none |
| `AclProcessor.Processor.MatchRule` | lowertier/src/common/acl_processor.rs:666-696 | a stateful match tracks its flow, and the entry records what was decided |
| `AclProcessor.Processor.Record` | lowertier/src/common/acl_processor.rs:698-701 | counts the match and stores its entry |
| `AclProcessor.MatchedIsEntry` | lowertier/src/common/acl_processor.rs:650-696 | the entry built step by step is the one a scan assigns to the packet |
| `AclProcessor.Processor.ApplyDefault` | lowertier/src/common/acl_processor.rs:705-739 | without a match the chain's default is counted and cached |
| `AclProcessor.Processor.CheckConnectionState` | lowertier/src/common/acl_processor.rs:852-879 | tracks one packet of a flow and nothing else |
| `AclProcessor.Processor.DrawToken` | lowertier/src/common/acl_processor.rs:882-913 | draws one token, creating the bucket unless the caller forbids it |
| `AclProcessor.Processor.IncrementStats` | lowertier/src/common/acl_processor.rs:584-588 | counts the packet once per listed counter, in order, twice where listed twice |
| `AclProcessor.Processor.CleanupCache` | lowertier/src/common/acl_processor.rs:525-556 | drops expired entries and, above the limit, the oldest ones |
| `AclProcessor.Processor.CacheResult` | lowertier/src/common/acl_processor.rs:752-761 | stores the entry, then sweeps if the cache is over twice its size |
| `AclProcessor.Processor.TickCache` | lowertier/src/common/acl_processor.rs:501-506 | the first half of a cleanup tick |
| `AclProcessor.Processor.TickLimiters` | lowertier/src/common/acl_processor.rs:508-509 | the second half of a cleanup tick |
| `AclProcessor.Processor.CleanupExpiredConnections` | lowertier/src/common/acl_processor.rs:1001-1023 | drops exactly the connections whose idle time exceeds the timeout |
| `AclTables.TrackingSumsUp` | lowertier/src/common/acl_processor.rs:852-879 | over every run, with its sweeps and however flows interleave, a flow is tracked exactly while it has visits that no sweep found idle, and its entry holds the first visit's endpoints and time, the last visit's time, the state and the exact packet and byte sums |
| `AclTables.PacketTracks` | lowertier/src/common/acl_processor.rs:666-682 | a packet reaches connection tracking exactly if a stateful rule allows it and no limit drops it |
| `AclTables.CountsEachListing` | lowertier/src/common/acl_processor.rs:584-588 | a counter grows by one packet and its size for each time the entry lists it |
| `AclTables.PacketCounts` | lowertier/src/common/acl_processor.rs:651-702 | a packet that no limit drops counts once, or twice under a limited rule, for the deciding rule or the default, and nowhere else |
| `AclTables.TokensAreConserved` | lowertier/src/common/token_bucket.rs:95-143 | over any draws and refills, grants and what is left never exceed what was there and what was added |
| `AclTables.BurstIsExact` | lowertier/src/common/token_bucket.rs:120-143 | without a refill exactly the first available draws are granted |
| `AclTables.RefillGrants` | lowertier/src/common/token_bucket.rs:95-143 | a refill makes good what was drawn up to the capacity, and so many later draws are granted |
| `AclCompile.BuildRules` | lowertier/src/common/acl_processor.rs:447-492 | the loop yields for each chain type the concatenation of the enabled chains' enabled rules, each chain sorted by priority |
| `AclCompile.VerdictIsDeclarative` | lowertier/src/common/acl_processor.rs:405-492 | for every configuration and packet the verdict is that of the first enabled chain with an applicable enabled rule, its highest priority, ties to the earliest listed, subject to that rule's tokens; else the default action of the first chain of the type, enabled or not; else Allow |
| `AclCompile.WinnerIsUnique` | lowertier/src/common/acl_processor.rs:447-492 | that description names at most one rule |
| `AclCompile.WinnerExists` | lowertier/src/common/acl_processor.rs:447-492 | and names one whenever any enabled rule of an enabled chain matches |
| `AclCompile.SortIsDescending` | lowertier/src/common/acl_processor.rs:472-473 | sorting is a permutation in descending priority |
| `AclCompile.ChainFindsBest` | lowertier/src/common/acl_processor.rs:465-473 | in a compiled chain the first match is the best rule |
| `AclCompile.VectorFindsWinner` | lowertier/src/common/acl_processor.rs:475-480 | in the concatenation the first match is the winner's conversion |
| `AclCompile.VectorFindsNothing` | lowertier/src/common/acl_processor.rs:475-480 | without a winner nothing in the vector matches |
| `AclCompile.WinnerVerdict` | lowertier/src/common/acl_processor.rs:645-703 | a winner without a rate limit gives the whole result: its action, its priority, marked stateful exactly if a stateful rule allows, and the log context |
| `AclCompile.LimitedWinnerVerdict` | lowertier/src/common/acl_processor.rs:650-664 | a winner with a rate limit decides likewise while its bucket, or the burst of a bucket not yet made, has tokens, and otherwise the packet is dropped under its priority |
| `AclCompile.DefaultIsFirst` | lowertier/src/common/acl_processor.rs:405-444 | the compiled default action is that of the first chain of the type, or Allow |
| `AclCompile.MatchIsMeaning` | lowertier/src/common/acl_processor.rs:763-849 | an enabled rule's compiled form matches exactly the packets that meet its conditions as configured: protocol, networks by leading bits, readable port texts, groups |
| `AclCompile.ContainsIsInside` | lowertier/src/common/acl_processor.rs:770-798 | membership in a network is agreement of the first length bits within one family |
| `AclCompile.NetworkIsMatched` | lowertier/src/common/acl_processor.rs:917-927 | unreadable networks are dropped, and a list with none left restricts nothing |
| `AclCompile.PortIsMatched` | lowertier/src/common/acl_processor.rs:929-951 | unreadable port texts are dropped, a list with none left restricts nothing, and a packet without the port passes |
| `AclCompile.GroupIsMatched` | lowertier/src/common/acl_processor.rs:826-846 | a group list is met by one common group, an empty one by any packet |
| `Bits.LeadingBits` | lowertier/src/common/acl_processor.rs:776-777 | equal quotients by a power of two are equal leading bits |
| `AclMeaning.OneRuleDecides` | lowertier/src/common/acl_processor.rs:645-703 | alone in a chain, an unlimited rule takes its action on exactly the packets it applies to and leaves the rest to the default |
| `AclMeaning.SourceNetworkDecides` | lowertier/src/common/acl_processor.rs:770-783 | a rule with only a source network decides exactly the packets whose source has its family and its first length bits |
| `AclMeaning.DestinationNetworkDecides` | lowertier/src/common/acl_processor.rs:785-798 | the same for the destination |
| `AclMeaning.SourceListDecides` | lowertier/src/common/acl_processor.rs:770-783 | a list of source networks decides what one of its readable networks does |
| `AclMeaning.DestinationListDecides` | lowertier/src/common/acl_processor.rs:785-798 | the same for destinations |
| `AclMeaning.SourcePortsDecide` | lowertier/src/common/acl_processor.rs:800-811 | a list of source ports decides packets without the port and those whose port lies in a readable range |
| `AclMeaning.PortsDecide` | lowertier/src/common/acl_processor.rs:813-824 | the same for destination ports |
| `AclMeaning.SourceGroupsDecide` | lowertier/src/common/acl_processor.rs:826-835 | a list of source groups decides the packets that carry one of them |
| `AclMeaning.DestinationGroupsDecide` | lowertier/src/common/acl_processor.rs:837-846 | the same for destination groups |
| `AclMeaning.ProtocolDecides` | lowertier/src/common/acl_processor.rs:765-768 | a protocol decides its own packets, and Any decides all |
| `AclMeaning.ConditionsAreConjoined` | lowertier/src/common/acl_processor.rs:763-849 | a rule with several conditions decides exactly the packets that each of its single conditions decides |
| `AclMeaning.UnconditionedFieldsAreIgnored` | lowertier/src/common/acl_processor.rs:763-849 | a rule decides alike any two packets that differ only in fields it has no condition on |
| `AclMeaning.FreshRulePassesItsBurst` | lowertier/src/common/acl_processor.rs:881-913 | a limited rule without a bucket passes exactly its first burst packets, and drops the rest for their rate, as long as nothing is refilled |
| `AclUpkeep.SweepKeepsYoungest` | lowertier/src/common/acl_processor.rs:524-556 | a cache sweep drops what is 15 s old, keeps the rest up to 1024 entries, and above that keeps 820 of which none is older than a dropped one |
| `AclUpkeep.SweepsDropTheIdle` | lowertier/src/common/acl_processor.rs:508-521 | limiters go after 20 idle seconds, connections after more than 60 |
| `AclUpkeep.RunBoundsCache` | lowertier/src/common/acl_processor.rs:752-761 | over every run the flow cache holds at most 2048 entries |
| `AclUpkeep.PacketIsCountedByItsResult` | lowertier/src/common/acl_processor.rs:605-740 | a cached packet counts as a hit only; any other counts by its result as a rule match, default drop or default allow, and not at all if its rate or chain dropped it |
| `AclCompile.DefaultVerdict` | lowertier/src/common/acl_processor.rs:405-444 | without a winner the action is that of the first chain of the type, whether enabled or not, and Allow if no chain has the type |
| `AclWhitelist.WhitelistAdmitsExactly` | lowertier/src/common/acl_processor.rs:1197-1316 | with valid lists and no user rules an inbound TCP or UDP packet is allowed exactly if its protocol has no list or the list contains its port |
| `AclWhitelist.WhitelistKeepsUserVerdicts` | lowertier/src/common/acl_processor.rs:1197-1316 | for a packet that a user rule matches, appending the whitelist chain changes neither the verdict nor any table, rate-limited rules included |
| `AclWhitelist.WhitelistDecidesTheRest` | lowertier/src/common/acl_processor.rs:1197-1316 | a TCP or UDP packet that no user rule takes is decided by the list of its protocol, if there is one |
| `AclWhitelist.PaddedTextParses` | lowertier/src/common/acl_processor.rs:1038-1047 | blanks around the numbers of a port text are ignored |
| `AclWhitelist.ValidatedListKeepsMeaning` | lowertier/src/common/acl_processor.rs:929-951 | no validated entry is lost in compilation, and the compiled ranges contain exactly the listed ports |
| `AclWhitelist.ValidatedKeepsMeaning` | lowertier/src/common/acl_processor.rs:1158-1195 | each validated entry denotes the same ports before and after rewriting and parsing |
| `AclWhitelist.ParsePortList` | lowertier/src/common/acl_processor.rs:1158-1195 | the loop accepts a list exactly if every entry is valid, and keeps each in place |
| `AclWhitelist.PairDecides` | lowertier/src/common/acl_processor.rs:1215-1295 | listed ports go to the allow rule, other ports to its companion, other protocols to neither |
| `AclWhitelist.WhitelistRulesDecide` | lowertier/src/common/acl_processor.rs:1197-1316 | over both lists together exactly one rule is best, with the right action |
| `AclWhitelist.RangeTextParses` | lowertier/src/common/acl_processor.rs:1038-1047 | a printed range parses back to its bounds |
| `LinearSolve.SolveLinear` | script/colima-throughput/fit_work_model.py:248-270 | a system is refused exactly when its matrix fails the pivot test; any answer solves it and proves there is no null vector; with a zero test a refusal proves there is one |
| `LinearSolve.AnswerIsExact` | script/colima-throughput/fit_work_model.py:248-270 | the same of the specification, for every threshold |
| `LinearSolve.ExactTest` | script/colima-throughput/fit_work_model.py:254-256 | with a zero test a matrix is accepted exactly if it has no null vector |
| `LinearSolve.TestIgnoresRhs` | script/colima-throughput/fit_work_model.py:253-269 | whether a system is refused depends on its matrix alone, never on the right-hand side |
| `LinearSolve.EliminateAll` | script/colima-throughput/fit_work_model.py:253-269 | the loop over columns stops at the first pivot that fails and otherwise finishes the system |
| `LinearSolve.FinishedIsExact` | script/colima-throughput/fit_work_model.py:253-269 | if all pivots pass, every column ends as a unit vector and the solution set is unchanged |
| `LinearSolve.FailureIsNull` | script/colima-throughput/fit_work_model.py:254-256 | with a zero test a failing pivot proves a null vector of the original matrix |
| `LinearSolve.FindPivot` | script/colima-throughput/fit_work_model.py:254 | the first row at or below the diagonal with the largest entry of the column |
| `LinearSolve.Eliminate` | script/colima-throughput/fit_work_model.py:260-269 | the row loop subtracts the pivot row from all others |
| `LinearSolve.PivotKeepsKernel` | script/colima-throughput/fit_work_model.py:257-269 | swap, scaling and elimination preserve the solution set |
| `LinearSolve.PivotFinishesColumn` | script/colima-throughput/fit_work_model.py:257-269 | the pivot's column becomes a unit vector and finished columns stay so |
| `LinearSolve.FinishedSolves` | script/colima-throughput/fit_work_model.py:270 | when all columns are unit vectors the last column solves the original system |
| `LinearSolve.FinishedHasNoNull` | script/colima-throughput/fit_work_model.py:270 | and the matrix then has no null vector |
| `LinearSolve.MissingPivotIsNull` | script/colima-throughput/fit_work_model.py:254-256 | a column without a pivot yields a non-zero null vector of the original matrix |
| `Nnls.NonnegativeLeastSquares` | script/colima-throughput/fit_work_model.py:273-313 | for every design with three columns the result is non-negative, and no non-negative vector has a smaller squared error whenever each face the pivot test rejects has a null vector; with a zero test that is always so |
| `Nnls.FitIsOptimal` | script/colima-throughput/fit_work_model.py:273-313 | the same as a condition on the design and the threshold alone |
| `Nnls.FitIsFeasible` | script/colima-throughput/fit_work_model.py:273-313 | whatever the threshold, the result is non-negative and never worse than zero |
| `NnlsExact.OptimalExactly` | script/colima-throughput/fit_work_model.py:255 | for a design without a null vector all observations are fitted optimally if and only if the pivot test accepts the normal matrix of every face |
| `NnlsExact.RejectionIsHarmful` | script/colima-throughput/fit_work_model.py:294-297 | the necessary half: for each rejected face there are observations that are not fitted optimally |
| `NnlsExact.OnesAreBetter` | script/colima-throughput/fit_work_model.py:303-312 | those observations have a unique optimum, with exactly that face as support |
| `NnlsExact.TrustIsNotNecessary` | script/colima-throughput/fit_work_model.py:255 | for a design with a null vector the condition is not necessary: with proportional columns an accepted face stands in for a rejected one |
| `NnlsExact.OtherFaceMissesOnes` | script/colima-throughput/fit_work_model.py:298-302 | and no other face offers it, clipping within the tolerance included |
| `Nnls.MissTinyOptimum` | script/colima-throughput/fit_work_model.py:255 | for any positive threshold a family of designs for which the answer is not optimal |
| `Nnls.TryFaces` | script/colima-throughput/fit_work_model.py:285-312 | the loop returns the best of zero and the candidates of all seven faces, earlier ones on ties |
| `Nnls.TryFace` | script/colima-throughput/fit_work_model.py:286-312 | one face is solved, filtered, clipped and compared |
| `Nnls.BuildNormal` | script/colima-throughput/fit_work_model.py:287-293 | the loops accumulate the normal equations of the face |
| `Nnls.AddRow` | script/colima-throughput/fit_work_model.py:289-293 | one observation is added to the accumulated sums |
| `Nnls.SquaredError` | script/colima-throughput/fit_work_model.py:303-309 | the loop sums the squared residuals |
| `Nnls.Place` | script/colima-throughput/fit_work_model.py:300-302 | clipped coefficients go to their own columns |
| `Nnls.DoneIsOptimal` | script/colima-throughput/fit_work_model.py:273-313 | a point at most every face's candidate is optimal, also for rank-deficient designs |
| `Nnls.Descend` | script/colima-throughput/fit_work_model.py:273-313 | from any feasible point there is a face candidate that is at least as good |
| `Nnls.LeaveFace` | script/colima-throughput/fit_work_model.py:273-313 | from a point of a face one reaches the face's minimiser or a smaller face without a worse error |
| `Nnls.ErrorIsParabola` | script/colima-throughput/fit_work_model.py:303-309 | along a line through the face minimiser the error is a parabola |
| `Nnls.NormalEquationsAreOrthogonality` | script/colima-throughput/fit_work_model.py:287-295 | solving the normal equations means a residual orthogonal to the face |
| `Nnls.NullIsFlat` | script/colima-throughput/fit_work_model.py:294-297 | a null vector of the normal matrix leaves every prediction unchanged |
| `AsyncOps.ReachableIsSafe` | lowertier-contrib/lowertier-ffi/src/data_plane_async.rs:275-335 | in every reachable state a registered operation is not consumed, a delivered outcome has the operation's kind and instance, a claimed operation is still ready or failed, and the fall-through arm is never reached |
| `AsyncOps.TakenOnce` | lowertier-contrib/lowertier-ffi/src/data_plane_async.rs:279-290 | over every run at most one step takes an operation out of the table |
| `AsyncOps.DeliveredOnce` | lowertier-contrib/lowertier-ffi/src/data_plane_async.rs:319-335 | over every run at most one step delivers the result of an operation |
| `AsyncOps.DeliveryFollowsClaim` | lowertier-contrib/lowertier-ffi/src/data_plane_async.rs:275-335 | a delivery comes after the same thread has taken the operation out of the table |
| `AsyncOps.HandlesHaveDistinctOrigins` | lowertier-contrib/lowertier-ffi/src/data_plane_async.rs:555-585 | in every reachable state two handles from one operation are the same handle |
| `AsyncOps.RunKeepsInv` | lowertier-contrib/lowertier-ffi/src/data_plane_async.rs:153-177 | every interleaving of complete, cancel, finish, free and removal keeps the invariant |
| `AsyncOps.ActIsSafe` | lowertier-contrib/lowertier-ffi/src/data_plane_async.rs:275-335 | each atomic step keeps the world and the thread's own expectations |
| `AsyncOps.ActDoesNotInterfere` | lowertier-contrib/lowertier-ffi/src/data_plane_async.rs:417-436 | no step of one thread disturbs what another relies on |
| `AsyncOps.ActKeepsOwned` | lowertier-contrib/lowertier-ffi/src/data_plane_async.rs:275-335 | an operation that a thread removed from the table is changed by no other thread, but for the task its start call may still attach |
| `AsyncOps.ActKeepsCleared` | lowertier-contrib/lowertier-ffi/src/data_plane.rs:291-324 | while teardown holds the lock no step brings back a handle or an operation of the removed instances |
| `AsyncOps.EventIsSafe` | lowertier-contrib/lowertier-ffi/src/data_plane_async.rs:153-177 | completion, cancellation and closing disturb nobody; how they settle an operation is stated by AsyncEndings |
| `AsyncEndings.DeliveryFollowsSuccess` | lowertier-contrib/lowertier-ffi/src/data_plane_async.rs:153-165 | over every run a delivered result has an earlier successful completion that met the operation pending, and no failure, cancellation or other completion came before that |
| `AsyncEndings.StatusTellsTheEnd` | lowertier-contrib/lowertier-ffi/src/data_plane_async.rs:439-447 | over every run a read of the state answers -2 exactly if a call consumed the operation, else 0 if nothing ended it, 1 if success came first, -1 if a failure or cancellation did |
| `AsyncEndings.StateIsExplained` | lowertier-contrib/lowertier-ffi/src/data_plane_async.rs:153-177 | in every reachable state the state of an operation is what the first end among the steps so far made it, or consumed |
| `AsyncEndings.PendingMeansFirst` | lowertier-contrib/lowertier-ffi/src/data_plane_async.rs:157-159 | whatever meets an operation pending is its first end |
| `AsyncEndings.HeldWasReady` | lowertier-contrib/lowertier-ffi/src/data_plane_async.rs:319-328 | a thread comes to hold a result only from an operation that its first end made ready |
| `AsyncEndings.StepSetsState` | lowertier-contrib/lowertier-ffi/src/data_plane_async.rs:153-177 | what one step does to the state of an operation, completion and cancellation included |
| `AsyncEndings.ReadyCanBeDelivered` | lowertier-contrib/lowertier-ffi/src/data_plane_async.rs:555-585 | from every reachable state with a ready operation, an idle thread and no writer the four steps of a finish call deliver it, with a handle exactly for connect, bind and accept |
| `AsyncEndings.CancellationIsFinal` | lowertier-contrib/lowertier-ffi/src/data_plane_async.rs:168-177 | a cancelled operation is marked for ever and never pending again |
| `AsyncEndings.FreeingKills` | lowertier-contrib/lowertier-ffi/src/data_plane_async.rs:479-489 | a free takes an operation in any state out of the table, cancels and consumes it |
| `AsyncEndings.TeardownKills` | lowertier-contrib/lowertier-ffi/src/data_plane_async.rs:427-435 | a teardown does the same to each operation of its instances |
| `AsyncEndings.DeadStaysDead` | lowertier-contrib/lowertier-ffi/src/data_plane_async.rs:153-165 | after that no step brings it back, a late completion included |
| `AsyncOps.RunEvolves` | lowertier-contrib/lowertier-ffi/src/data_plane_async.rs:153-177 | over any run nothing settled about an operation is taken back: its kind, its claimer, its delivered outcome, its consumed state |
| `AsyncOps.ClaimsAndDeliveriesAreFirst` | lowertier-contrib/lowertier-ffi/src/data_plane_async.rs:275-335 | a step that claims finds the operation unclaimed in the table; a delivering step finds it undelivered, claimed by its own thread, and ends the delivery |
| `AsyncOps.InvalidMeansUnregistered` | lowertier-contrib/lowertier-ffi/src/data_plane_async.rs:439-447 | a status call that answers invalid is right about the table at that moment, one that reads the state of an operation in the table never answers invalid, and any other answer is the state read |
| `AsyncOps.StatusCanBeStale` | lowertier-contrib/lowertier-ffi/src/data_plane_async.rs:440-446 | the converse fails: from any state with a ready operation a thread can be told that it is ready after another took it out of the table |
| `AsyncOps.TeardownIsFinal` | lowertier-contrib/lowertier-ffi/src/data_plane.rs:291-310 | when teardown releases the lock no handle and no operation of the removed instances is left, and no operation from before can ever yield a handle |
| `AsyncOps.TeardownBuries` | lowertier-contrib/lowertier-ffi/src/data_plane_async.rs:417-436 | the state in which teardown releases the lock |
| `AsyncOps.RunKeepsBuried` | lowertier-contrib/lowertier-ffi/src/data_plane_async.rs:555-585 | no later interleaving brings a removed operation back or turns it into a handle |
| `Bencode.Skip` | lowertier-tracker/src/wire.rs:297-320 | skipping terminates on every input because each success consumes at least one byte |
| `BencodeLocality.AcceptedIsPrefixFree` | lowertier-tracker/src/wire.rs:323-369 | no proper prefix of an accepted response is accepted |
| `BencodeLocality.FieldsIsLocal` | lowertier-tracker/src/wire.rs:338-356 | reading the pairs depends only on the bytes consumed, wherever they stand |
| `BencodeLocality.ValueIsLocal` | lowertier-tracker/src/wire.rs:339-354 | the same for each kind of value |
| `BencodeLocality.PeersIsLocal` | lowertier-tracker/src/wire.rs:219-257 | the same for both forms of peer lists |
| `BencodeLocality.SkipIsLocal` | lowertier-tracker/src/wire.rs:297-320 | the same for skipping |
| `BencodeLocality.StringIsLocal` | lowertier-tracker/src/wire.rs:264-285 | the same for strings |
| `BencodeLocality.IntegerIsLocal` | lowertier-tracker/src/wire.rs:286-296 | the same for integers |
| `BencodeInsert.InsertionIsInvisible` | lowertier-tracker/src/wire.rs:338-355 | a pair with an unrecognised key at any pair boundary leaves the parsed response as it was if its value is within the limits, and makes it an error otherwise |
| `BencodeInsert.SkipsExactly` | lowertier-tracker/src/wire.rs:297-320 | skipping an encoded value ends exactly at its end, or fails exactly when a part is nested too deep or a number does not fit |
| `BencodeInsert.StringAt` | lowertier-tracker/src/wire.rs:264-285 | an encoded string reads back |
| `BencodeInsert.NumberAt` | lowertier-tracker/src/wire.rs:286-296 | an encoded number reads back exactly if it fits in 64 bits |
| `BencodeInsert.TailMoves` | lowertier-tracker/src/wire.rs:338-356 | the rest of a response reads the same wherever it stands |
| `BencodeReader.HttpResponse` | lowertier-tracker/src/wire.rs:323-369 | the loop over pairs, the end check and the final interval and address rules equal the specification, whose meaning for any list of pairs is stated by HttpResponses.ResponseReads |
| `BencodeReader.ReadCompact` | lowertier-tracker/src/wire.rs:174-200 | the loop over entries, with its early exit, equals the specification |
| `BencodeReader.Reader.constructor` | lowertier-tracker/src/wire.rs:328 | a reader starts at offset 0 |
| `BencodeReader.Reader.String` | lowertier-tracker/src/wire.rs:264-285 | succeeds exactly when the specification does, with its value and end |
| `BencodeReader.Reader.Integer` | lowertier-tracker/src/wire.rs:286-296 | succeeds exactly when the specification does, with its value and end |
| `BencodeReader.Reader.SkipValue` | lowertier-tracker/src/wire.rs:297-320 | succeeds exactly when the specification does, with its end |
| `BencodeReader.Reader.SkipContainer` | lowertier-tracker/src/wire.rs:306-316 | the loop over items, with its end |
| `BencodeReader.Reader.PeerDictionary` | lowertier-tracker/src/wire.rs:228-240 | the loop over the keys of one peer, with its end |
| `BencodeReader.Reader.Peer` | lowertier-tracker/src/wire.rs:226-244 | one peer dictionary, which must name both address and port |
| `BencodeReader.Reader.PeerList` | lowertier-tracker/src/wire.rs:223-256 | the loop over peers, with its limit and end, equals the specification, which HttpResponses.DictsParse relates to any list of encoded dictionaries |
| `BencodeReader.Reader.CompactPeers` | lowertier-tracker/src/wire.rs:221 | a compact string of peers, with its end |
| `BencodeReader.Reader.Peers` | lowertier-tracker/src/wire.rs:219-257 | either form of peer list, with its end; HttpResponses.ListedParses and CompactParses say what is read |
| `BencodeReader.Reader.Field` | lowertier-tracker/src/wire.rs:339-354 | one pair of the response applied to the fields, with its end |
| `HttpReply.RoundTrip` | lowertier-tracker/src/server.rs:439-457 | parsing the reply for at most 16 peers yields the interval, the observed address when sent, and exactly the usable peers, strictly sorted; a zero interval is refused |
| `HttpResponses.ResponseReads` | lowertier-tracker/src/wire.rs:323-369 | a response of well-formed pairs in any order is read pair by pair into the fields they name and then finished; it is an error if it exceeds 16 KiB or one pair cannot be read |
| `HttpResponses.ListedPeersReadBack` | lowertier-tracker/src/wire.rs:223-256 | a response that lists at most 16 peers as dictionaries, keys in any order and skippable pairs anywhere, gives back exactly the usable peers, strictly sorted |
| `HttpResponses.MissingKeyIsAnError` | lowertier-tracker/src/wire.rs:241-244 | a peer dictionary without an address or a port makes the response an error |
| `HttpResponses.DictParses` | lowertier-tracker/src/wire.rs:226-244 | a dictionary is read as the address it names, a later pair overriding an earlier one, and is an error if a key is missing or a pair unreadable |
| `HttpResponses.DictsParse` | lowertier-tracker/src/wire.rs:225-255 | a list of dictionaries admits the named peers one by one |
| `HttpResponses.ListedParses` | lowertier-tracker/src/wire.rs:219-257 | the list form of the peers, read whole |
| `HttpResponses.CompactParses` | lowertier-tracker/src/wire.rs:220-222 | the compact form, an error unless its length is a multiple of the entry size |
| `HttpResponses.FailureIsAnError` | lowertier-tracker/src/wire.rs:340-343 | a failure reason makes the response an error whatever else it holds |
| `HttpResponses.NoIntervalIsAnError` | lowertier-tracker/src/wire.rs:358-360 | a response without an interval is an error |
| `HttpResponses.IntervalIsRead` | lowertier-tracker/src/wire.rs:344-346 | the last interval counts and must be positive |
| `HttpResponses.MinimumRaisesInterval` | lowertier-tracker/src/wire.rs:347-365 | the last minimum raises a positive interval and never makes up for a missing one |
| `HttpResponses.TrailingBytesAreAnError` | lowertier-tracker/src/wire.rs:356-357 | bytes after the dictionary make the response an error |
| `HttpResponses.AcceptedIsADictionary` | lowertier-tracker/src/wire.rs:323-333 | only a bracketed dictionary of at most 16 KiB is ever read |
| `HttpResponses.UsableByOctets` | lowertier-tracker/src/wire.rs:245-250 | the usable addresses by their octets |
| `HttpResponses.KeysAreSpelled` | lowertier-tracker/src/wire.rs:230-352 | the keys and markers as text |
| `HttpReply.FinishOk` | lowertier-tracker/src/wire.rs:358-368 | a positive interval is required and raised to the minimum, and the addresses come out in order and once each |
| `HttpReply.FinishKeepsSmallest` | lowertier-tracker/src/wire.rs:361-363 | with too many addresses the 16 smallest are kept |
| `HttpReply.OrderIsForgotten` | lowertier-tracker/src/wire.rs:361-363 | replies with the same usable peers parse alike whatever their order or repetition |
| `HttpReply.BuildReply` | lowertier-tracker/src/server.rs:439-457 | the appends yield the specified reply for the first 16 peers |
| `HttpReply.SplitPeers` | lowertier-tracker/src/server.rs:439-443 | the loop encodes each peer under its own family |
| `HttpReply.AppendCompact` | lowertier-tracker/src/server.rs:472-478 | appends the octets and the port |
| `HttpReply.AppendText` | lowertier-tracker/src/server.rs:446-455 | appends one key and one string with its length |
| `HttpReply.ReplyParses` | lowertier-tracker/src/wire.rs:338-357 | the parser's fields after a whole reply |
| `HttpReply.ReplyFits` | lowertier-tracker/src/server.rs:444-456 | a reply with at most 16 peers is within the client's size limit |
| `HttpReply.CompactInverts` | lowertier-tracker/src/wire.rs:174-200 | decoding a compact list admits the encoded peers one by one |
| `HttpReply.CompactBytesInverts` | lowertier-tracker/src/server.rs:472-478 | one compact entry decodes to its address |
| `Net.SortOk` | lowertier-tracker/src/wire.rs:361 | sorting yields an ordered permutation |
| `Net.LessMeans` | lowertier-tracker/src/wire.rs:361 | the order of addresses: IPv4 before IPv6, then the first different octet, then the port |
| `Net.DedupOk` | lowertier-tracker/src/wire.rs:362 | on a sorted list, removing equal neighbours removes every duplicate and nothing else |
| `Decimal.ParseI64OfPrint` | lowertier-tracker/src/wire.rs:293 | a printed integer parses back exactly if it fits in 64 bits |
| `Decimal.ParseOfPrint` | lowertier-tracker/src/wire.rs:273 | a printed number parses back exactly if it is in range |
| `UrlData.AppendedIsRead` | lowertier-tracker/src/wire.rs:31-65 | appending a target to a packet with whole options and no end marker makes the reader return the data held before followed by the target, exactly if together they are at most 1024 bytes of valid UTF-8 |
| `UrlData.AppendedIsOpen` | lowertier-tracker/src/wire.rs:31-38 | what is appended is whole and open again and holds the target, so appends compose |
| `UrlData.AppendUrlData` | lowertier-tracker/src/wire.rs:31-38 | the loop over 255-byte chunks appends the specified options, or refuses a target over 1024 bytes |
| `UrlData.ReadUrl` | lowertier-tracker/src/wire.rs:40-65 | the loop over options equals the specification, error cases included |
| `UrlData.EndMarkerStops` | lowertier-tracker/src/wire.rs:44-63 | an end marker hides whatever follows it |
| `UrlData.CutOptionIsAnError` | lowertier-tracker/src/wire.rs:44-63 | an option that is cut off makes the packet an error |
| `UrlData.ShortTarget` | lowertier-tracker/src/wire.rs:31-38 | a short target is one option of kind 2 with its length |
| `UrlData.ReadsOpen` | lowertier-tracker/src/wire.rs:44-63 | reading past whole options collects what they hold, unless that exceeds the limit |
| `UrlData.ReadsOptions` | lowertier-tracker/src/wire.rs:44-63 | reading the options of a target yields the target across all chunk boundaries |
| `TrackerHistory.RunRefines` | lowertier-tracker/src/server.rs:173-265 | over any run with monotone time the unexpired entries are exactly the keys whose latest accepted announce was not a stop and is within its lifetime |
| `TrackerAdmission.AcceptedExactly` | lowertier-tracker/src/server.rs:173-228 | over any run an announce is accepted exactly if its port is not 0, its event is 0 to 3, and it is a stop, or its key is alive by the history, or after expiry the swarm exists or fewer than 4096 do, fewer than 65536 entries are stored and fewer than 256 in the swarm |
| `TrackerAdmission.RefusedExactly` | lowertier-tracker/src/server.rs:182-228 | a valid announce that is no stop and comes a second after the last sweep is refused exactly if its key is not alive and the live keys of the history fill one of the three limits by themselves |
| `TrackerAdmission.SweptMirrors` | lowertier-tracker/src/server.rs:188-197 | after a sweep the store holds the live keys of the history and nothing else |
| `TrackerAdmission.MirrorCounts` | lowertier-tracker/src/server.rs:195 | and its three sizes are those of the live keys |
| `TrackerHistory.StepRefines` | lowertier-tracker/src/server.rs:173-239 | one announce changes what is alive exactly as its event says, refused ones not at all |
| `TrackerHistory.PreparedKeepsLive` | lowertier-tracker/src/server.rs:182-203 | expiry, swarm by swarm or everywhere, never drops a live entry |
| `TrackerHistory.ReplyFollowsHistory` | lowertier-tracker/src/server.rs:240-264 | the answer is a page of the sorted list of exactly the addresses the history offers, each once for each other live peer that announced it |
| `TrackerHistory.RankedMultiplicity` | lowertier-tracker/src/server.rs:248-256 | how often the list holds each address, and never one of the other family |
| `TrackerHistory.ReturnedWasAnnounced` | lowertier-tracker/src/server.rs:248-256 | every returned address was announced from its own IP by a different peer of the same swarm and family and is unexpired |
| `TrackerHistory.RunKeepsStoreOk` | lowertier-tracker/src/server.rs:173-265 | after every run, refusals included, the entry count is exact and all three limits hold |
| `TrackerStore.StepKeepsStoreOk` | lowertier-tracker/src/server.rs:173-239 | each announce keeps the count exact and the limits |
| `TrackerStore.SweptOk` | lowertier-tracker/src/server.rs:188-197 | a sweep recounts exactly and keeps the limits |
| `TrackerStore.PrunedOk` | lowertier-tracker/src/server.rs:198-203 | expiry in one swarm keeps the count exact and never below zero |
| `TrackerStore.LeftOk` | lowertier-tracker/src/server.rs:204-215 | a stop keeps the count exact and never below zero |
| `TrackerStore.JoinedOk` | lowertier-tracker/src/server.rs:220-239 | a stored entry keeps the count exact and the limits |
| `TrackerStore.Lifetime` | lowertier-tracker/src/server.rs:234-237 | the larger of three announce intervals and ten seconds |
| `TrackerStore.AnnounceInterval` | lowertier-tracker/src/server.rs:47-54 | the larger of the configured interval and 30 seconds for idle announces, else the configured one |
| `TrackerStore.Limit` | lowertier-tracker/src/server.rs:240-244 | the smaller of the wanted number and 16, and 16 for negative numbers |
| `TrackerServer.Server.constructor` | lowertier-tracker/src/server.rs:83-91 | starts empty |
| `TrackerServer.Server.Announce` | lowertier-tracker/src/server.rs:173-265 | the new store and the answer are those of one specified step, whose acceptance TrackerAdmission states, and the invariant holds |
| `TrackerServer.Server.Process` | lowertier-tracker/src/server.rs:173-265 | the phases of an announce in order equal one specified step, accepted exactly as TrackerAdmission.AcceptedExactly says |
| `TrackerServer.Server.Expire` | lowertier-tracker/src/server.rs:181-203 | expires everywhere when due and in the announced swarm always |
| `TrackerServer.Server.Stop` | lowertier-tracker/src/server.rs:204-215 | removes the announcer's own entry and nothing else |
| `TrackerServer.Server.Join` | lowertier-tracker/src/server.rs:216-239 | opens the swarm and stores the entry as far as the limits allow, leaving an empty swarm where they do not |
| `TrackerServer.Server.Admit` | lowertier-tracker/src/server.rs:134-162 | the new counters and the verdict are those of the specification, and the invariant holds |
| `TrackerServer.Server.AdmitResponse` | lowertier-tracker/src/server.rs:164-171 | the new byte count and the verdict are those of the specification |
| `TrackerServer.CountEntries` | lowertier-tracker/src/server.rs:195 | the loop sums the sizes of all swarms |
| `TrackerServer.CollectPeers` | lowertier-tracker/src/server.rs:248-256 | visiting the entries in any order collects each eligible address once per entry |
| `TrackerServer.SelectPeers` | lowertier-tracker/src/server.rs:240-264 | the answer is the page of the sorted list that the clock selects, independent of the visiting order |
| `Rotation.RotationIsFair` | lowertier-tracker/src/server.rs:257-263 | over any n consecutive seconds each position of an unchanged list of n is held by exactly min(limit, n) replies |
| `Rotation.DistinctRotationIsFair` | lowertier-tracker/src/server.rs:257-263 | of a list without duplicates each address itself is in exactly that many replies |
| `Rotation.PageHoldsPositions` | lowertier-tracker/src/server.rs:258-263 | a reply holds the addresses at the positions that the same page of the positions holds |
| `Rotation.PageAt` | lowertier-tracker/src/server.rs:258-263 | the i-th element of a reply is the list element i places after the time, counted cyclically |
| `RateLimit.AdmissionIsExact` | lowertier-tracker/src/server.rs:134-162 | over any run a request is admitted exactly if fewer than 2048 requests, and fewer than 32 of its source, were admitted since the clock last changed |
| `RateLimit.GrantIsExact` | lowertier-tracker/src/server.rs:164-171 | a response is granted exactly if it fits in 128 KiB with those granted since the clock last changed |
| `RateLimit.LimitsHold` | lowertier-tracker/src/server.rs:134-171 | between two changes of the clock no more is ever granted than the three limits |
| `RateLimit.RunTracks` | lowertier-tracker/src/server.rs:134-171 | the counters hold what was granted since the clock last changed, and requests are the sum of the per-source counts, each between 1 and 32 |
| `RateLimit.AdmitKeepsRatesOk` | lowertier-tracker/src/server.rs:134-162 | each admission or refusal keeps requests equal to the sum of the counts, each between 1 and 32 |
| `RateLimit.TableNeverFills` | lowertier-tracker/src/server.rs:152-154 | the check on the size of the source table never refuses anyone |
| `RateLimit.MappedIsPlain` | lowertier-tracker/src/server.rs:135-141 | an IPv4-mapped address shares the count of the plain IPv4 address |
| `RateLimit.SharedSource` | lowertier-tracker/src/server.rs:135-141 | two IPv6 sources share a count exactly if they share a /64 or are the same IPv4-mapped address |
| `Binding.TwinsAgree` | script/mesh-stun.py:41-79 | for every packet and every IPv4 source the Rust responder with an alternate port and the Python one answer with identical bytes and port flag, or both refuse |
| `BindingRequests.RequestsAreAnswered` | lowertier-tracker/src/binding.rs:15-71 | a request with any list of attributes is answered exactly if the source has a port and each attribute is CHANGE-REQUEST for nothing or for an existing other port, PADDING or comprehension-optional; from the other port exactly if the last CHANGE-REQUEST asks; and the mapped address is the source |
| `BindingRequests.AnsweredIsARequest` | lowertier-tracker/src/binding.rs:16-24 | nothing else is answered: every answered packet is such a request |
| `BindingRequests.ScanReads` | lowertier-tracker/src/binding.rs:27-43 | the loop over encoded attributes reads them one by one |
| `BindingRequests.AskedIsLast` | lowertier-tracker/src/binding.rs:38 | the last CHANGE-REQUEST counts |
| `BindingRequests.PythonAnswersAlike` | script/mesh-stun.py:41-79 | the Python twin answers the same requests from the same port |
| `Binding.ScansAgree` | script/mesh-stun.py:48-66 | the two attribute loops agree, flags included |
| `Binding.HeadersAgree` | script/mesh-stun.py:43-47 | the two header checks agree |
| `Binding.RepliesAgree` | script/mesh-stun.py:76-79 | the two replies agree byte for byte |
| `Binding.FinalCheckIsRedundant` | lowertier-tracker/src/binding.rs:44 | word alignment makes the final comparison of the offset redundant |
| `Binding.ScanEndsExactly` | lowertier-tracker/src/binding.rs:27-43 | on an aligned packet the loop can only end exactly at the end |
| `Binding.SourceIsRecovered` | lowertier-tracker/src/binding.rs:47-70 | decoding XOR-MAPPED-ADDRESS by section 14.2 of RFC 8489 recovers the source for IPv4 and IPv6 |
| `Binding.RequestIsAnswered` | lowertier-tracker/src/binding.rs:7-13 | a plain request is always answered, on the same port and with its own transaction |
| `Binding.Respond` | lowertier-tracker/src/binding.rs:15-71 | the loop over attributes and the edits of the reply equal the specification |
| `Binding.BuildReply` | lowertier-tracker/src/binding.rs:47-69 | the header edited in place and the appended attribute equal the specified reply |
| `Binding.PythonRespond` | script/mesh-stun.py:41-79 | the Python loop equals its specification |

## Left out

- Sockets, tasks, HTTP framing, cookies and passkeys of the tracker: input and output around the modelled steps, and keyed hashes.
- UDP announce packets and punch messages: fixed layouts without branching.
- Parsing of query strings, CIDR notation and address texts: library code; address texts appear as a parameter whose parser undoes its printer.
- Scope identifiers and flow labels of IPv6 socket addresses: addresses are octets and a port.
- Poisoned locks, wrap-around of the 64-bit handle counter, C strings and buffer ownership: outside the transition system.
- Bodies of the data-plane read and write calls: they move bytes and change neither table.
- Two processors that share buckets during a hot reload: one processor and its own cleanup are modelled.
- Group resolution and packet parsing in the filter: a packet arrives as its extracted fields.
- Statistics strings and hit-rate reports: they read state and change nothing.
- Rounding in the least-squares solver: arithmetic is exact.
- Configuration, launcher, command line, graphical and Windows code: mostly getters, wiring and foreign calls.
- Nnls.NonnegativeLeastSquares: for a positive threshold and a design that itself has a null vector the condition is only sufficient, because a dependent column can stand in for a rejected face (`NnlsExact.TrustIsNotNecessary`).
- HttpReply.RoundTrip: the observed address is stated for texts of at most 58 bytes, the longest the standard library prints.
