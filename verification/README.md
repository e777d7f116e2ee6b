# A verified model of umicat

umicat is a load balancer in C. This project models the parts of it that decide something (the
upstream scheduler with its health state, the consistent-hash ring, the accept queue) and the
parts they stand on (the memory pool and its growable arrays, the circular queue, the JSON parser
and printer, MD5, and the byte codecs), and proves what they keep over every run or for every
input. To check it, use `dafny verify dfyconfig.toml`.

The C code changes records, buffers and links in place, and so do the classes and methods here.
Each method is proved against a function or predicate on values; the theorems about runs, round
trips and orders are lemmas about those functions.

| file | what it models |
|---|---|
| Upstream.dfy, RoundRobin.dfy, Health.dfy, Checks.dfy, Accounting.dfy, Sums.dfy | the server table as atomic operations; smooth weighted round robin over runs; the health state over runs; active checks over runs; who takes part, and the weights over runs, in plain fields and times |
| HashRing.dfy, RingPoints.dfy, StableOrder.dfy | the ring of the ip_hash policy; what it holds and finds, in terms of servers and hashes; what a stable sort is |
| Queue.dfy, AcceptQueue.dfy | the circular intrusive list with its stable sort; the hand-off between one master and many workers |
| Pool.dfy, PoolSearch.dfy, GrowableArray.dfy | the bump allocator over a chain of blocks; how long its search gets; arrays that grow in place at the end of the first block |
| Md5.dfy, Md5Answers.dfy | streaming MD5 against sections 3.1 to 3.5 of RFC 1321; its table and two digests of section A.5 |
| Bytes.dfy, JsonString.dfy, JsonValue.dfy | bytes; JSON strings with their escapes; values and their text |
| JsonPrint.dfy | the printer and its growing buffer |
| JsonParse.dfy, JsonParser.dfy | the parser as functions; the parser as it runs |
| JsonGrammar.dfy, JsonTokens.dfy, JsonAccepted.dfy | the grammar of RFC 8259 as a relation, with what the code allows beyond it; the parser accepts exactly that |
| JsonRoundTrip.dfy | printing and parsing undo each other |
| JsonChildList.dfy | the child list of arrays and objects |
| Utf8Decode.dfy, EscapeJson.dfy, Base64.dfy, Uri.dfy, UriModes.dfy | the codecs of src/uct_string.c |

## Assumptions

- The operations on the server table are atomic steps. In the C code a get holds the mutex of the
  cycle while the writers of the weights hold the spinlock of the server, so this is an assumption
  about scheduling, not something the locks give.
- Time is an input of each step, reduced to 64 bits. A clock that never goes back is required only
  where a lemma says so.
- Configured weights are not negative, and the weights are unbounded integers.
- Memory never runs out: where the C code calls an allocator, the model gets fresh memory or an
  address that overlaps nothing in use. Capacity limits of the code itself (INT_MAX in the printer, the
  block size of the pool) are modelled.
- Bytes are numbers in the JSON and codec files: shifts, masks and ORs of disjoint bits appear as
  division, remainder and sum. MD5 and the tables of the URI escaper use bit vectors.
- `nbytes << 3` (src/uct_md5.c:328) overflows a signed int for a piece of 2^28 bytes or more, which C leaves
  undefined; the model takes it as wrapping, as the assignment to an unsigned word has it.
- Logging has no part in the model.

## Where the code differs from what is written about it

- The repository's README.md:22 says a server is down when its failures exceed `max_fails`; the code takes it down when they reach
  it, and with `max_fails` 0 at the first one (Health.DownExactlyAtCount).
- Failure windows do not slide: a window is opened by a failure, so failures that are close
  together can fall into two windows (Health.WindowsDoNotSlide).
- The repository's README.md:30-31 calls the checks behind `fall` and `rise` consecutive. They are not: the
  counters are only reset by a transition that a check makes, so a check of the other kind in between changes
  nothing (Checks.ChecksDecide, Checks.PassesDoNotHelp). Connects change the state and leave the counters, so a server
  that a connect took down can come up at its next passed check (Checks.ChecksDecideInRuns, Checks.EarlierPassesCount).
- Round robin can return a server that it skips, because `best` starts at 0: if and only if server 0 is skipped and
  no participant comes above 0 (RoundRobin.SkippedPickExactly, Health.SkippedServerIsReturned). How often is
  bounded by RoundRobin.FallbackBound.
- The random choice divides by the total weight, which can be 0 (Health.NobodyHasWeight says when,
  Health.RandomCallDividesByZero gives a run).
- The pool needs a block size that is a multiple of 8: otherwise the unsigned difference in its
  test wraps and it hands out memory behind the block (Pool.EndMustBeAligned, Pool.UnalignedBlockOverruns).
- The comments at src/uct_palloc.c:186-191 and src/uct_palloc.c:223-227 speak of 4 and 3 rounds; the loops go
  up to 7 blocks and 5 slots (PoolSearch.SevenAreExamined, Pool.FifthSlotIsReused).
- `uct_reset_pool` clears the failed counts that keep the search short. After a reset of n > 2 blocks a search may
  examine n + 5 of them before the bound of 7 returns (PoolSearch.SearchBound, PoolSearch.BoundIsAttained,
  PoolSearch.SevenExactly).
- An array created with room for no elements cannot grow by reallocation, since twice nothing is
  nothing (GrowableArray.PoolArray.Push says exactly when, GrowableArray.PushWithoutCapacityFails gives one).
- Appending to a child list that is not empty does not reset the `next` of the item and does not look whether the item
  is a child already, so the result is a list if and only if the item was no child and had no successor
  (JsonChildList.AddItemToArray, JsonChildList.AppendingASiblingFails, JsonChildList.AppendingTwiceFails). Inserting and
  replacing do not look either (JsonChildList.InsertItemInArray, JsonChildList.ReplaceItemViaPointer).
- The binary search over the hash ring reads outside of it when it has no points, which is if and only if all weights are
  0, a configuration that is accepted (HashRing.EmptyRing, HashRing.Ring.GetHashPoint).
- The comment of the `refresh` table of `uct_escape_uri` lists the percent sign, its bits do not:
  that kind alone does not survive unescaping (Uri.RoundTripExactly). The comment of the `args`
  table omits the semicolon, which the bits have (Uri.TablesInWords).
- `uct_utf8_decode` takes any byte from 0x80 on for a continuation byte, any byte from 0xf0 on for the start of
  four bytes, and the patterns of surrogates, which RFC 3629 prohibits (Utf8Decode.EncodeUndoesDecode for the
  patterns, Utf8Decode.DecodesByTheStandard for what the standard allows, Utf8Decode.OtherBytesAreAccepted).
- The parser accepts more than RFC 8259: any byte up to 0x20 is white space, also NUL; strings may hold control bytes;
  numbers may have leading zeros, and no digits on one side of the point; an escape `\u` with a byte that is no
  digit counts as `\u0000`, which ends the C string. A number of more than 63 bytes is cut. JsonGrammar is the
  language with all this, and JsonAccepted.DocumentExactly says that it is accepted and nothing else.
- `parse_string` looks at the byte behind the text when it is called there. This happens if and only if parsing the
  value fails one byte behind the text; a caller can find out by parsing the text with two colons behind it
  (JsonParser.OverreadExactly, JsonParse.LooksBehindExactly). It happens only for texts that end in a comma, never for
  a text that is passed with its terminator, and the outcome does not depend on that byte (JsonParser.Parse,
  JsonParser.OverreadNeedsComma, JsonParser.TerminatedIsReadInside, JsonParser.OverreadHappens).

## Model

| member | source | states |
|---|---|---|
| Upstream.UpstreamTable.AddWeights | src/uct_upstream.c:147-156 | the first loop of a get: every server that takes part is probed if due and gains its weight, the others are untouched, and the total is that of the participants |
| Upstream.UpstreamTable.SelectBest | src/uct_upstream.c:158-166 | the second loop finds the first server with the largest positive current weight among the participants, or server 0 |
| Upstream.UpstreamTable.RoundRobinGet | src/uct_upstream.c:129-172 | a whole get: the new table and the pick are those of the step function, which the lemmas on runs are about |
| Upstream.UpstreamTable.ConnectFailure | src/uct_upstream.c:82-105 | only the record of the server changes: weight lowered but never below 0, failure counted in its window, server down at the limit |
| Upstream.UpstreamTable.ConnectSuccess | src/uct_upstream.c:111-124 | only the record of the server changes: up again with no failures if it was down, one unit of weight recovered up to the configured one |
| Upstream.UpstreamTable.ActiveCheck | src/uct_check.c:149-174 | only the record of the server changes: counted, and a transition exactly when the rise or fall count is reached, which resets both counters |
| Upstream.UpstreamTable.RandomGet | src/uct_upstream.c:447-490 | the weights are probed as in a get; if the total is zero the division fails, and only then; otherwise the server returned is the one that owns the drawn ticket, and server 0 if none does |
| Upstream.BestIsUnique | src/uct_upstream.c:158-166 | there is only one server that can be the result of the selection |
| RoundRobin.StepParts | src/uct_upstream.c:147-168 | what one get does to every single record, and that the pick alone pays the total |
| RoundRobin.CurrentSumKept | src/uct_upstream.c:147-168 | one get keeps the sum of all current weights, whatever the state of the servers |
| RoundRobin.SkippedPickExactly | src/uct_upstream.c:140-167 | in any table, a call returns a server that it skips if and only if server 0 is skipped and no participant comes above 0 |
| RoundRobin.FixedPick | src/uct_upstream.c:158-168 | with fixed participants, a pick takes no part if and only if server 0 takes no part and no participant comes above 0; it is then server 0, and the participants' current weights sum to at most minus the total |
| RoundRobin.ClosedForm | src/uct_upstream.c:147-168 | the whole table after any run of gets with fixed participants: each gained its weight per call and paid the total per pick |
| RoundRobin.RunFromRest | src/uct_upstream.c:129-172 | from rest every pick takes part, the sum stays 0 and no server ever owes a full round |
| RoundRobin.Fairness | src/uct_upstream.c:129-172 | after any k calls, W times the picks of server i is less than k times its weight plus W |
| RoundRobin.ExactRound | src/uct_upstream.c:129-172 | W calls pick every server exactly as often as its weight says and restore the table |
| RoundRobin.Periodic | src/uct_upstream.c:129-172 | so do any number of rounds |
| RoundRobin.FallbackLedger | src/uct_upstream.c:140-167 | every pick of a skipped server raises the participants' sum by the total, and happens only while the sum stays at most 0 |
| RoundRobin.FallbackBound | src/uct_upstream.c:140-167 | while participants and weights stay fixed, at most floor(max(0, -sum) / total) calls return a skipped server |
| RoundRobin.FallbackIsToFirst | src/uct_upstream.c:140-167 | and that server is server 0 |
| Accounting.GetInFields | src/uct_upstream.c:147-168 | a get, in record fields and plain differences of times: a server takes part if and only if it is up, no fallback, or out of its pause; it gains its weight, or 1 if it is down without weight and its pause is over; the others stay as they are; the pick is the first that comes out highest above 0, else server 0, and pays the sum |
| Accounting.RandomInFields | src/uct_upstream.c:455-473 | the same for the table of a random call and the total it divides by |
| Accounting.OwnersInFields | src/uct_upstream.c:475-490 | the same for who owns a ticket |
| Health.StepKeepsHealth | src/uct_upstream.c:82-124 | every event keeps every weight between 0 and max(weight, 2), a down server at weight at most 1, and the settings |
| Health.HealthInvariant | src/uct_upstream.c:82-124 | the same after every interleaving of gets, random calls, connect results and checks |
| Health.CurrentWeightsBalance | src/uct_upstream.c:140-167 | over every such interleaving the sum of all current weights never changes |
| Health.SkippedServerIsReturned | src/uct_upstream.c:140-167 | a run of two servers after which the skipped server 0 is returned although the other one takes part |
| Health.FailureEffect | src/uct_upstream.c:88-105 | a failure, in terms of plain differences of times: what becomes of the count, the window and the state |
| Health.OpeningIsWindowStart | src/uct_upstream.c:93-98 | the window of the last failure, wherever the run starts: it holds all later failures, and the one before it was over when it was opened |
| Health.DownAtMaxFails | src/uct_upstream.c:93-105 | with a clock that does not go back, failures take any up server, also one inside a window, down at exactly the first failure whose window holds max_fails of them |
| Health.FailuresDecide | src/uct_upstream.c:60-126 | in a whole run nothing but the server's own failures matters for that, as long as it is up and not actively checked |
| Health.DownExactlyAtCount | src/uct_upstream.c:93-105 | one failure of an up server, with any clock: it goes down if and only if the new count is nonzero and reaches max_fails |
| Health.WindowsDoNotSlide | src/uct_upstream.c:93-98 | three failures in eight seconds that leave a server up although max_fails is 3 and fail_timeout 10 |
| Health.TicketsAreProportional | src/uct_upstream.c:447-490 | every ticket of the random choice has exactly one owner, and a server owns as many as its weight says, none if it is skipped |
| Health.NobodyHasWeight | src/uct_upstream.c:463-471 | for healthy servers the total of the random choice is never negative, and it is 0 if and only if every server is skipped, or has no weight and is not to be probed yet |
| Health.RandomCallDividesByZero | src/uct_upstream.c:475 | one failed connect of the only server after which the next random call divides by zero |
| Accounting.FailureInFields | src/uct_upstream.c:82-105 | the whole table after a failed connect, with a clock that does not go back: weight less weight / max_fails but not below 0, count, state and time |
| Accounting.SuccessInFields | src/uct_upstream.c:111-124 | the whole table after a successful connect: up, a clean count if it was down, one unit of a lowered weight back |
| Accounting.CheckInFields | src/uct_check.c:149-174 | the whole table after a check: a transition up adds 1 and clears the count, one down leaves no weight and a count of 1, both clear the check counters |
| Accounting.WeightAfterFailures | src/uct_upstream.c:82-105 | in any run in which an up server only has k failed connects its weight is max(0, start - k * (weight / max_fails)), and 0 once it is down |
| Accounting.WeightAfterSuccesses | src/uct_upstream.c:111-124 | in any run in which it only has m successful ones it is min(weight, start + m) |
| Accounting.DownOverRun | src/uct_upstream.c:147-156 | whatever happens to the others, a down server without weight keeps its record until the first call after its pause and has weight 1 from then on |
| Accounting.ReturnsAfterPause | src/uct_upstream.c:82-156 | a server that a failed connect at time t takes down is left out of every get before t + fail_timeout if it is a fallback, and gains 1 in every get behind it |
| Checks.LastTransitionIsLast | src/uct_check.c:149-174 | what the last transition of a run of checks is: the state changed at it and not after it |
| Checks.CountersSinceTransition | src/uct_check.c:149-174 | over every run of checks the two counters hold the failed and the passed ones since the last transition, below their limits |
| Checks.ChecksDecide | src/uct_check.c:149-174 | over every run of checks of an otherwise untouched server: it goes down at exactly the check_fall-th failed one since the last transition, and up at exactly the check_rise-th passed one, whatever lies between; a limit of 0 acts like 1 |
| Checks.PassesDoNotHelp | src/uct_check.c:149-174 | a failed, a passed and a failed check take a server down whose fall is 2 |
| Checks.CountersInRuns | src/uct_check.c:149-174 | over every interleaving of gets, random calls, connect results and checks the counters hold the server's failed and passed checks since the last transition that a check made |
| Checks.ChecksDecideInRuns | src/uct_check.c:149-174 | so in every such run a check takes an up server down if and only if it failed and with it at least check_fall have failed since then, and brings a down one up likewise |
| Checks.EarlierPassesCount | src/uct_check.c:159-172 | a server taken down by a connect that comes up at the next passed check although its rise is 2 |
| StableOrder.StableSortIsUnique | src/uct_queue.c:44-74 | there is one stable sorted order: two sorted sequences with the same subsequence of every class of equal keys are the same |
| StableOrder.MovePast | src/uct_queue.c:57-73 | moving an element past others that it is not alike keeps every class in order |
| StableOrder.SameClassesPermute | src/uct_queue.c:44-74 | keeping every class in order implies being a permutation |
| HashRing.Ring.constructor | src/uct_upstream.c:217-261 | the ring holds 160 points per unit of weight of every server, in the stable order by hash |
| HashRing.BubbleSort | src/uct_upstream.c:245-260 | the bubble sort is a stable sort by hash |
| HashRing.SwapKeepsClasses | src/uct_upstream.c:252-257 | a swap of neighbours out of order keeps points with equal hashes in order |
| HashRing.FirstAtLeast | src/uct_upstream.c:263-290 | the naive scan: the first point whose hash is at least the key, or the end |
| HashRing.Ring.GetHashPoint | src/uct_upstream.c:263-290 | the binary search returns the point the naive scan finds, and point 0 when there is none; it reads outside of the ring if and only if there are no points |
| HashRing.Ring.NextValidPoint | src/uct_upstream.c:292-321 | the first valid point from the given hash on; none if and only if there is none up to the end of the ring, as the search does not wrap |
| HashRing.RestIsFiltered | src/uct_upstream.c:217-261 | the ring without a server is the ring with that server's points left out |
| HashRing.EmptyRing | src/uct_upstream.c:217-243 | there are no points if and only if every weight is 0 |
| RingPoints.BuildRing | src/uct_upstream.c:217-261 | the ring as built: 160 points per unit of weight in all, each point as often as there are servers and numbers below 160 times the weight that give it, sorted by hash |
| RingPoints.KeyFindsNearest | src/uct_upstream.c:263-290 | what a key finds: the least hash of all servers' points at or above it, or the least of all if there is none; where hashes collide, a point of the first server with that hash |
| RingPoints.Locate | src/uct_upstream.c:217-290 | building and looking up as they run: that point, or a read outside of the ring if and only if all weights are 0 |
| HashRing.FirstSurvives | src/uct_upstream.c:263-290 | leaving out the points of a server does not move the first point at or behind a key if it belongs to another |
| HashRing.RemovalMovesOnlyItsOwnKeys | src/uct_upstream.c:217-290 | removing a server changes the owning point of no key that it did not own, also when hashes collide |
| HashRing.SignExtensionKeepsOrder | src/uct_upstream.c:333-343 | sign-extending 32-bit hashes keeps their unsigned order |
| HashRing.SignExtensionKeepsValue | src/uct_upstream.c:333-343 | the 64-bit hash is the 32-bit one read as a signed number |
| Queue.List.constructor | src/uct_queue.h:21-23 | an initialised queue is an empty ring |
| Queue.List.InsertAfter | src/uct_queue.h:32-38 | insertion behind element k is insertion into the sequence; the ring stays well linked |
| Queue.List.InsertTail | src/uct_queue.h:42-46 | insertion before the sentinel is an append |
| Queue.List.Remove | src/uct_queue.h:63-75 | unlinking removes just that element |
| Queue.List.Split | src/uct_queue.h:80-86 | splitting at an element cuts the sequence in two rings |
| Queue.List.Add | src/uct_queue.h:88-92 | adding a queue concatenates the sequences |
| Queue.List.Middle | src/uct_queue.c:12-39 | the element at index floor(n/2), and the sentinel for an empty queue |
| Queue.List.Reinsert | src/uct_queue.c:62-72 | the inner loop puts an element back behind the last one that is not greater; the sorted part grows by it and equal elements keep their order |
| Queue.List.Settle | src/uct_queue.c:57-73 | one round of the sort, and the next element to look at |
| Queue.List.Sort | src/uct_queue.c:44-74 | for every total preorder the sort ends with a well-linked list of the same nodes in the stable sorted order |
| AcceptQueue.ListeningPool.Insert | src/uct_connection.c:59-72 | the master's section does what the action of the state machine says: the connection is put at the front |
| AcceptQueue.ListeningPool.Post | src/uct_connection.c:78-82 | the semaphore goes up by one, as the actions of the master and of a worker without the lock say |
| AcceptQueue.ListeningPool.TryWait | src/uct_connection.c:92-95 | the action of the state machine: the semaphore goes down, and a token is held, exactly if it was positive |
| AcceptQueue.ListeningPool.Take | src/uct_connection.c:103-111 | the action of the state machine: a worker with a token takes the last connection, and needs no test because the invariant says there is one |
| AcceptQueue.StepKeepsInv | src/uct_connection.c:59-112 | every atomic section, also with a failing lock, keeps: queue length = semaphore + tokens held + inserted but not posted |
| AcceptQueue.InvAlways | src/uct_connection.c:59-112 | that holds after every interleaving of one master and any number of workers |
| AcceptQueue.NeverTakesSentinel | src/uct_connection.c:85-112 | a worker that got past the semaphore never finds the queue empty |
| AcceptQueue.DeliveredInOrder | src/uct_connection.c:59-112 | the k-th connection accepted is the k-th delivered, to one worker; the rest waits in the queue in order |
| AcceptQueue.NothingIsLost | src/uct_connection.c:59-112 | when the master is idle, the semaphore is 0 and no token is held, everything accepted was delivered |
| AcceptQueue.TurnedAwayOnlyWhenClaimed | src/uct_connection.c:92-95 | a worker is turned away if and only if every queued connection is claimed by a token or not posted yet |
| Pool.FitsMeansRoom | src/uct_palloc.c:131-146 | in a block with an aligned end the unsigned test says exactly whether there is room |
| Pool.EndMustBeAligned | src/uct_palloc.c:132-142 | aligning never leaves a block, at any fill level, if and only if its end is aligned |
| Pool.OverrunsExactly | src/uct_palloc.c:132-142 | in any block, a request passes the test and runs over the end if and only if aligning alone has left the block |
| Pool.UnalignedBlockOverruns | src/uct_palloc.c:132-142 | a pool of 100 bytes in which a request of 20 bytes, within its limit, fills the block, and an aligned one of 16 is then placed behind the block |
| Pool.FirstFit | src/uct_palloc.c:129-146 | the first block from a point on that has room |
| Pool.Examined | src/uct_palloc.c:129-146 | how many blocks a search looks at, at most those from current on |
| Pool.PlaceInWords | src/uct_palloc.c:131-136 | unaligned memory starts at the fill level, aligned memory at the next multiple of 8 |
| Pool.CurrentInWords | src/uct_palloc.c:193-199 | after a miss current is behind the last searched block that had failed five times or more |
| Pool.MemoryPool.constructor | src/uct_palloc.c:14-40 | a new pool is one safe block with the documented limit for small requests |
| Pool.MemoryPool.PallocSmall | src/uct_palloc.c:123-149 | the place found or the new block; what is handed out is inside its block, aligned when asked, and disjoint from everything live; exactly how many blocks are examined, at most 7 while the failed counts descend |
| Pool.MemoryPool.FindRoom | src/uct_palloc.c:129-146 | the search loop finds the first block with room |
| Pool.MemoryPool.Bump | src/uct_palloc.c:132-142 | taking memory at the fill level of a block keeps all live memory apart |
| Pool.MemoryPool.PallocBlock | src/uct_palloc.c:155-202 | the new block is chained at the end, every block that was missed counts one failure, current moves behind the last that failed more than four times; failed counts from current on still descend to 0, 0 |
| Pool.DescendingKept | src/uct_palloc.c:193-199 | why: a miss keeps the shape of the failed counts and the chain behind current short |
| Pool.MemoryPool.Alloc | src/uct_palloc.c:98-120 | both entry points: the region handed out joins the live ones, disjoint from each, and the search bound is kept |
| Pool.MemoryPool.PallocLarge | src/uct_palloc.c:209-250 | a large allocation is recorded in a free slot among the first looked at, or in a new header from the pool |
| Pool.MemoryPool.FindSlot | src/uct_palloc.c:228-237 | the slot that is reused, by the search loop |
| Pool.FifthSlotIsReused | src/uct_palloc.c:228-237 | when the first four slots are in use and the fifth is free, the fifth is reused |
| Pool.SlotExactly | src/uct_palloc.c:228-237 | the slot that is reused is the first free one of the first five |
| Pool.MemoryPool.Pfree | src/uct_palloc.c:284-308 | frees the first large allocation at that address and nothing else; succeeds if and only if there is one |
| Pool.MemoryPool.Reset | src/uct_palloc.c:72-96 | every block is emptied and its failed count is 0; the counts still descend if and only if there are at most two blocks |
| PoolSearch.RecoveringMiss | src/uct_palloc.c:193-199 | after a reset of n blocks, five misses leave current where it is; the sixth moves it to the last of the n and the counts descend again |
| PoolSearch.StepKeepsBound | src/uct_palloc.c:72-202 | every small request, change of a fill level and reset keeps the counts in one of the two shapes |
| PoolSearch.SearchBound | src/uct_palloc.c:72-202 | over every run with any number of resets a search examines at most 7 blocks, or n + 5 if the last reset found n > 2 of them |
| PoolSearch.BoundIsAttained | src/uct_palloc.c:72-202 | for every n there is a run of requests and one reset of n blocks after which n + 5 blocks are examined |
| PoolSearch.SevenAreExamined | src/uct_palloc.c:123-149 | seven requests to a new pool after which the next examines 7 blocks |
| PoolSearch.SevenExactly | src/uct_palloc.c:72-202 | the search stays within 7 blocks if and only if at most two were there at the last reset |
| GrowableArray.PoolArray.constructor | src/uct_array.h:31-45 | an initialised array has an extent that is live and disjoint from all that was; limits, blocks and unused memory of the pool stay, but for what the allocation was given |
| GrowableArray.PoolArray.Create | src/uct_array.c:11-26 | a created array: the header comes from the pool too, it and the extent are live, disjoint from each other and from all that was live before; the pool goes on as for the constructor |
| GrowableArray.PoolArray.Push | src/uct_array.c:63-109 | the place of the new element behind the others; the capacity grows by one, doubles or stays; the array stays valid, with that place inside its extent, if and only if there was room, some capacity to double, or room behind it; no other live region is touched, and the pool goes on as for the constructor |
| GrowableArray.PoolArray.PushN | src/uct_array.c:111-158 | the same for n elements at once |
| GrowableArray.PushWithoutCapacityFails | src/uct_array.c:63-109 | an array without capacity in a pool of 160 bytes whose elements of 1000 bytes do not fit behind it: after a push it is not valid |
| GrowableArray.PoolArray.GrowInPlace | src/uct_array.c:72-87 | growing at the end of the first block keeps every other region |
| GrowableArray.PoolArray.Move | src/uct_array.c:88-101 | moving copies the elements and changes no other memory |
| GrowableArray.PoolArray.Append | src/uct_array.c:63-109 | whenever the array has capacity to double or room behind it, pushing and filling appends to the sequence of elements, and the bytes of every other live region stay, whichever way the array grows |
| GrowableArray.PoolArray.Destroy | src/uct_array.c:31-58 | gives back exactly the elements and the header that are last in the first block |
| GrowableArray.TailMoved | src/uct_array.c:72-87 | why the last region of the first block may grow or shrink |
| Md5.Round1 | src/uct_md5.c:199-224 | the unrolled round equals sixteen steps of the tabular definition |
| Md5.Round2 | src/uct_md5.c:225-250 | likewise for round 2 |
| Md5.Round3 | src/uct_md5.c:251-276 | likewise for round 3 |
| Md5.Round4 | src/uct_md5.c:277-302 | likewise for round 4 |
| Md5.Rounds | src/uct_md5.c:199-302 | the four together are the 64 steps of section 3.4 of RFC 1321 |
| Md5.State.Process | src/uct_md5.c:131-310 | one block is compressed into the state |
| Md5.State.Append | src/uct_md5.c:322-358 | for every way the buffer and the piece meet, and every length that the int arithmetic allows, the state after appending is the state of the longer message, with the length in two words |
| Md5.State.TopUp | src/uct_md5.c:339-347 | the initial partial block |
| Md5.State.ProcessBlocks | src/uct_md5.c:350-352 | the full blocks of a piece |
| Md5.State.AdvanceCount | src/uct_md5.c:333-337 | the two-word bit count with its carry |
| Md5.State.Finish | src/uct_md5.c:360-381 | padding and length give the digest of the message |
| Md5.MessageDigest | src/uct_md5.c:312-381 | for every way of cutting a message into pieces, init, append and finish give its digest by sections 3.1 to 3.5 of RFC 1321 |
| Md5Answers.Table1 | src/uct_md5.c:199-224 | steps 1 to 8: word, rotation and constant as section 3.4 of RFC 1321 lists them |
| Md5Answers.Table2 | src/uct_md5.c:199-224 | steps 9 to 16: word, rotation and constant as section 3.4 of RFC 1321 lists them |
| Md5Answers.Table3 | src/uct_md5.c:225-250 | steps 17 to 24: word, rotation and constant as section 3.4 of RFC 1321 lists them |
| Md5Answers.Table4 | src/uct_md5.c:225-250 | steps 25 to 32: word, rotation and constant as section 3.4 of RFC 1321 lists them |
| Md5Answers.Table5 | src/uct_md5.c:251-276 | steps 33 to 40: word, rotation and constant as section 3.4 of RFC 1321 lists them |
| Md5Answers.Table6 | src/uct_md5.c:251-276 | steps 41 to 48: word, rotation and constant as section 3.4 of RFC 1321 lists them |
| Md5Answers.Table7 | src/uct_md5.c:277-302 | steps 49 to 56: word, rotation and constant as section 3.4 of RFC 1321 lists them |
| Md5Answers.Table8 | src/uct_md5.c:277-302 | steps 57 to 64: word, rotation and constant as section 3.4 of RFC 1321 lists them |
| Md5Answers.DigestOfNothing | src/uct_md5.c:131-381 | the digest of the empty message is the one in section A.5 of RFC 1321 |
| Md5Answers.DigestOfAbc | src/uct_md5.c:131-381 | so is that of abc |
| JsonString.Utf16At | src/uct_json.c:652-713 | an escape that is accepted is 6 or 12 bytes long, ends before the string does, and a single one is a 16-bit value |
| JsonString.EncodingBytes | src/uct_json.c:721-760 | the bytes that the shifting loop produces are those of the patterns in section 3 of RFC 3629 |
| JsonString.EncodeUtf8 | src/uct_json.c:721-764 | the loop from the last byte to the first writes the encoding and touches nothing else |
| JsonString.StepFits | src/uct_json.c:786-877 | one step of the second pass never writes more than the room it gives up, wherever the first pass cut the text |
| JsonString.DecodedFits | src/uct_json.c:786-877 | the size estimate: the decoded bytes never exceed what the first pass computed, also when the two passes split the text differently |
| JsonString.DecodeUndoesEscape | src/uct_json.c:773-899 | both passes over an escaped text give back the text, for every byte string |
| JsonString.CString | src/uct_json.c:876-880 | the bytes up to the first NUL, which is all of them if and only if there is none |
| JsonValue.ValueInt | src/uct_json.c:361-373 | the integer value is saturated and otherwise truncated toward zero, in plain numbers |
| JsonValue.RenderHasNoNul | src/uct_json.c:525-535 | the printed text never contains the terminator, so its length can be measured |
| JsonPrint.PrintBuffer.Ensure | src/uct_json.c:439-522 | room is made if and only if the demand fits the capacity; what has been printed is kept |
| JsonPrint.PrintBuffer.UpdateOffset | src/uct_json.c:525-535 | the offset ends up right behind the text printed last |
| JsonPrint.PrintBuffer.CountEscapes | src/uct_json.c:929-953 | the counting pass is exact |
| JsonPrint.PrintBuffer.WriteEscape | src/uct_json.c:975-1016 | one byte is written as its escape, inside the reserved bytes |
| JsonPrint.PrintBuffer.PrintString | src/uct_json.c:902-1021 | succeeds if and only if the quoted, escaped text and two bytes fit, and then the buffer holds it |
| JsonPrint.PrintBuffer.PrintNumber | src/uct_json.c:545-612 | the same for null, the decimal integer or the text of %g, as the value says; a text of more than 25 bytes fails |
| JsonPrint.PrintBuffer.PrintArray | src/uct_json.c:1539-1598 | the same for an array, with the depth restored |
| JsonPrint.PrintBuffer.PrintObject | src/uct_json.c:1714-1825 | the same for an object |
| JsonPrint.PrintBuffer.PrintMember | src/uct_json.c:1741-1805 | one member with indentation, key, colon, value and its end |
| JsonPrint.PrintBuffer.PrintValue | src/uct_json.c:1367-1438 | for every tree and starting capacity: success if and only if the text and two bytes fit, and then the buffer holds what was there, the text and a terminator; bytes beyond the given length are never touched |
| JsonPrint.Print | src/uct_json.c:1187-1260 | a block of exactly the text and its terminator, unless the text is longer than INT_MAX - 2 |
| JsonPrint.PrintBuffered | src/uct_json.c:1262-1290 | the same text for every first guess of the size; null for a negative one |
| JsonPrint.PrintPreallocated | src/uct_json.c:1292-1309 | succeeds if and only if the length is at least that of the text plus two, and then the memory holds the same text; nothing behind the length is written |
| JsonParse.SkipBlank | src/uct_json.c:1038-1061 | skipping white space never moves back past where it began and stays in the text |
| JsonParse.Strtod | src/uct_json.c:353-357 | what is converted is a prefix of what was collected |
| JsonParse.ParseValueAt | src/uct_json.c:1312-1364 | parsing ends on every byte string, and on success the offset has moved forward and is inside the text |
| JsonParse.ParseArrayAt | src/uct_json.c:1441-1536 | the same for arrays |
| JsonParse.ParseObjectAt | src/uct_json.c:1601-1711 | the same for objects |
| JsonParse.ParseText | src/uct_json.c:1095-1172 | on success the end is in the text; on failure the error position is |
| JsonParse.AcceptedValue | src/uct_json.c:1312-1364 | every accepted value, with the depth at which it stands, nests no deeper than the limit, and all its strings are C strings |
| JsonParse.ValueNeedsComma | src/uct_json.c:1312-1364 | no failure is further than one byte behind the text, and if one is there the text ends in a comma |
| JsonParse.StopValue | src/uct_json.c:1312-1364 | two colons behind a text that ends in a comma change nothing in how it is parsed |
| JsonParse.LooksBehindExactly | src/uct_json.c:1312-1364 | a value fails one byte behind the text if and only if the text ends in a comma and the completed text fails at its second colon |
| JsonParser.ParseHex4 | src/uct_json.c:615-648 | the four-digit loop computes the value of the digits, 0 if one is none |
| JsonParser.Utf16LiteralToUtf8 | src/uct_json.c:652-770 | the escape is recognised as Utf16At says and its encoding is appended |
| JsonParser.ScanString | src/uct_json.c:790-809 | the first pass finds the closing quote and the number of skipped bytes |
| JsonParser.RoomForEscape | src/uct_json.c:786-877 | an escape has room for its encoding in the block that was asked for |
| JsonParser.DecodeString | src/uct_json.c:819-877 | the second pass writes the decoded text inside a block of the estimated size, or stops at the bad escape |
| JsonParser.ParseBuffer.SkipWhitespace | src/uct_json.c:1038-1061 | moves the offset as SkipBlank says |
| JsonParser.ParseBuffer.SkipBom | src/uct_json.c:1064-1077 | skips a byte order mark only if a fifth byte can be read |
| JsonParser.ParseBuffer.ParseString | src/uct_json.c:773-899 | string, offset and failure position are those of the specification for every byte that may stand behind the text, with every write inside the block; that byte is read if and only if the offset is at the end |
| JsonParser.ParseBuffer.ParseNumber | src/uct_json.c:305-380 | likewise for numbers, with the saturated integer value |
| JsonParser.ParseBuffer.ParseArray | src/uct_json.c:1441-1536 | likewise for arrays; on success the depth is restored |
| JsonParser.ParseBuffer.ParseObject | src/uct_json.c:1601-1711 | likewise for objects |
| JsonParser.ParseBuffer.ParseValue | src/uct_json.c:1312-1364 | the mutually recursive parser refines the specification on every text, offset, depth and byte behind the text; it reads that byte if and only if it fails one byte behind the text |
| JsonParser.Parse | src/uct_json.c:1095-1172 | the entry point returns the tree and its end, or the error position, whatever stands behind the text; it looks there if and only if parsing the value fails one byte behind it |
| JsonParser.OverreadNeedsComma | src/uct_json.c:773-784 | only a text that ends in a comma makes the parser look behind it |
| JsonParser.TerminatedIsReadInside | src/uct_json.c:1079-1092 | a text that is passed with its terminator never does |
| JsonParser.OverreadExactly | src/uct_json.c:1095-1172 | the entry point looks behind a text if and only if the text ends in a comma and, parsed with two colons behind it, fails at the second one; that parse does not look behind its own end |
| JsonParser.OverreadHappens | src/uct_json.c:1653-1664 | a text of seven bytes that does |
| JsonParser.StopsInArray | src/uct_json.c:1500-1520 | the error position of [1 2] is the second number |
| JsonParser.StopsInObject | src/uct_json.c:1640-1700 | that of {1} is behind the byte that is no quote |
| JsonParser.StopsAtEscape | src/uct_json.c:826-872 | that of a string with an unknown escape is the backslash |
| JsonTokens.OnlyUtf8 | src/uct_json.c:715-764 | the bytes written for a code point are those of the table in section 3 of RFC 3629, and no others |
| JsonTokens.DecodeSpells | src/uct_json.c:819-877 | the second pass writes a text if and only if the bytes spell it, by the escapes of section 7 of RFC 8259 |
| JsonTokens.StringExactly | src/uct_json.c:773-899 | parse_string succeeds with a text and an end if and only if a string token stands there whose spelling, up to its first NUL, is the text |
| JsonTokens.StrtodOfNumeral | src/uct_json.c:353-357 | a number with sign, digits, point and exponent is converted as a whole to its exact value |
| JsonTokens.NumberIsRead | src/uct_json.c:305-380 | wherever a number of at most 63 bytes stands, and cannot go on, it is read for its value |
| JsonTokens.NumberIsFound | src/uct_json.c:305-380 | and what is read is such a number |
| JsonAccepted.ValueIsFound | src/uct_json.c:1312-1364 | what the parser accepts, anywhere and at any depth, is a text of the grammar of the value that it returns |
| JsonAccepted.ValueIsRead | src/uct_json.c:1312-1364 | every text of the grammar is parsed to its value up to its end, or fails, exactly as the nesting limit decides |
| JsonAccepted.ItemsAreRead | src/uct_json.c:1441-1536 | the same for the items of an array, with any white space |
| JsonAccepted.MembersAreRead | src/uct_json.c:1601-1711 | the same for the members of an object |
| JsonAccepted.ValueExactly | src/uct_json.c:1312-1364 | both together: a value and an end are found if and only if the bytes between are a text of that value within the limit |
| JsonAccepted.DocumentExactly | src/uct_json.c:1095-1172 | a text with its terminator is accepted with a value if and only if it is a document of that value within the limit |
| JsonRoundTrip.StrtodOfDecimal | src/uct_json.c:353-357 | reading an integer back from its decimal text is exact |
| JsonRoundTrip.PrintedIsValue | src/uct_json.c:1367-1438 | whatever is printed for a value, with or without layout and at any depth, is a text of the grammar of that value |
| JsonRoundTrip.ParsePrintedValue | src/uct_json.c:1312-1364 | wherever a printed value stands and a number cannot go on behind it, the parser finds that value and stops right behind it if the nesting limit leaves room at that depth, and fails if it does not |
| JsonRoundTrip.ParsePrinted | src/uct_json.c:1095-1172 | the round trip: parsing the printed text, formatted or not, gives every printable tree back if it nests at most 1000 deep, and fails for every other one |
| JsonRoundTrip.PrintParsedAgain | src/uct_json.c:1095-1172 | any accepted text with 32-bit integers: printing its tree and parsing that gives the same tree, with no condition on the depth |
| JsonRoundTrip.PlainInBytes | src/uct_json.c:1539-1825 | the bytes printed for an object with an array and an empty object in it |
| JsonRoundTrip.LayoutInBytes | src/uct_json.c:1539-1825 | the same with the layout: lines, tabs and spaces |
| JsonChildList.GetArrayItem | src/uct_json.c:1851-1868 | the element at an index, or null past the end |
| JsonChildList.AddItemToArray | src/uct_json.c:1956-1989 | appends to the sequence, for every item that the code accepts; the list is well formed if and only if it was empty, or the item was no child and had no successor; the children of the siblings stay |
| JsonChildList.NeverAList | src/uct_json.c:1956-1989 | a parent whose first child's prev has a successor has no child list at all |
| JsonChildList.AppendingASiblingFails | src/uct_json.c:1956-1989 | appending the first of two children of another parent leaves no list |
| JsonChildList.AppendingTwiceFails | src/uct_json.c:1956-1989 | appending the only child again makes it its own successor and leaves no list |
| JsonChildList.InsertItemInArray | src/uct_json.c:2263-2289 | inserts at the index, or appends past the end; the list then holds the new sequence if and only if the item was neither child nor parent and, past the end of a nonempty list, had no successor; the children of the siblings stay |
| JsonChildList.DetachItemViaPointer | src/uct_json.c:2187-2221 | removes just that element and keeps head.prev at the tail; the children of the siblings stay |
| JsonChildList.ReplaceItemViaPointer | src/uct_json.c:2292-2339 | replaces just that element; the list then holds the new sequence if and only if the replacement was neither the parent nor another child; the children of the siblings stay |
| Utf8Decode.Decode | src/uct_string.c:807-861 | the decoder returns the value and the bytes consumed that the specification gives |
| Utf8Decode.DecodeUndoesEncode | src/uct_string.c:807-861 | the encoding of every code point from 0x80 on is decoded to it and consumed entirely, whatever follows |
| Utf8Decode.EncodeUndoesDecode | src/uct_string.c:807-861 | the bytes consumed for a value are its shortest bit pattern, surrogates included, if and only if they have the forms of section 3 of RFC 3629 |
| Utf8Decode.DecodesByTheStandard | src/uct_string.c:807-861 | they are the encoding of a scalar value if and only if they have those forms and do not start with 0xed and a byte from 0xa0 on |
| Utf8Decode.OtherBytesAreAccepted | src/uct_string.c:807-861 | three inputs that the standard does not allow and that are accepted |
| Utf8Decode.NothingDecoded | src/uct_string.c:807-861 | when the two answers that are no value are given, and how much is consumed then |
| Utf8Decode.EscapeToUtf8AndBack | src/uct_json.c:652-770 | every scalar value from 0x80 on, written as one or two escapes, becomes its encoding, which decodes to the value |
| Utf8Decode.AcceptedIsScalar | src/uct_json.c:652-713 | an accepted escape always stands for a scalar value, a pair exactly for one above 0xffff |
| EscapeJson.ExtraLength | src/uct_string.c:1319-1348 | the sizing pass is exact |
| EscapeJson.Escape | src/uct_string.c:1350-1401 | writes the escaped text in just the room that was measured |
| EscapeJson.ParseUndoesEscape | src/uct_json.c:773-899 | between quotes, parse_string gives the source back if and only if it has no NUL, and otherwise its part before the first one |
| EscapeJson.EscapesInBytes | src/uct_string.c:1350-1401 | what is written for quotes, backslashes, the five letters, other control bytes and all the rest |
| Base64.TablesAgree | src/uct_string.c:644-751 | the encoding and decoding tables are inverse to each other |
| Base64.LettersInWords | src/uct_string.c:644-660 | the two alphabets of RFC 4648, letter by letter |
| Base64.Encode | src/uct_string.c:662-703 | the loop and the tail write the encoding inside the documented length |
| Base64.Decode | src/uct_string.c:753-796 | the decoder accepts and decodes as specified, inside the documented length; on an error nothing is written |
| Base64.DecodeUndoesEncode | src/uct_string.c:644-796 | decoding undoes encoding for every byte string, in both alphabets, with and without padding |
| Base64.GroupIsOneNumber | src/uct_string.c:677-686 | three bytes and their four letters are the same number of 24 bits |
| Base64.KnownAnswers | src/uct_string.c:662-703 | answers of section 10 of RFC 4648, with each kind of tail |
| Uri.TablesInWords | src/uct_string.c:943-1064 | what the bit tables of each kind escape, in words |
| Uri.Measure | src/uct_string.c:1068-1083 | without a destination the number of bytes to escape is counted: the result is longer by twice that |
| Uri.Escape | src/uct_string.c:1085-1099 | writes the escaped text in just that room |
| Uri.EscapedLength | src/uct_string.c:1068-1099 | the escaped text has the size of the source plus two for each escape |
| Uri.Advance | src/uct_string.c:1113-1221 | one byte through the three states, for all modes |
| Uri.Unescape | src/uct_string.c:1101-1227 | the decoder writes what the state machine says and never more than it has read |
| Uri.UnescapeUndoesEscape | src/uct_string.c:934-1227 | plain unescaping undoes escaping whenever the percent sign is escaped or absent |
| Uri.LosesWeight | src/uct_string.c:1101-1227 | when the percent sign is not escaped, every text that has one loses weight on the way, so that it cannot come back |
| Uri.RoundTripExactly | src/uct_string.c:934-1227 | unescaping gives the source back if and only if the kind is not REFRESH or the source has no percent sign |
| Uri.PercentIsLost | src/uct_string.c:1021-1039 | an example of such a text |
| UriModes.EscapeInLetters | src/uct_string.c:1085-1092 | an escape is a percent sign and two capital digits |
| UriModes.UriStopsAtQuestion | src/uct_string.c:1101-1227 | with the first flag a well escaped text is decoded as usual, up to its first question mark, escaped or not |
| UriModes.RedirectKeepsMeaning | src/uct_string.c:1101-1227 | with the second one the result is well escaped, has escapes for unprintable bytes alone, and decodes to the same up to there |

## Left out

- Sockets, epoll, timers, threads, logging, files, option parsing and configuration: connect and check results, times and random numbers are inputs of the steps.
- Least-connection and heuristic selection: minimum searches in one loop. The open-connection counter is kept as the code keeps it, but no lemma says that it counts open connections.
- Locks that fail are steps that change nothing (or give the token back); locks that never come free are not modelled.
- Numbers that are not 32-bit integers are parsed, exactly, but not printed: the text of `%g` and the rounding of `strtod` are foreign. Locales are left out: the decimal point is a point.
- JSON trees are values in the parser and the printer; their `next`, `prev` and `child` links are modelled in JsonChildList alone. Raw items, references, constant keys, hooks, deletion and minifying are left out.
- JsonPrint.PrintBuffer.Ensure: models growth with realloc, which keeps all bytes; the path that allocates and copies keeps the bytes up to offset, and nothing behind them is used.
- JsonRoundTrip.ParsePrinted: covers trees whose numbers are 32-bit integers and whose strings have no NUL, because no other text is printed by this model.
- The destination of the codecs is not the memory of the source; decoding in place is not modelled.
- JsonParse.Strtod: computes over the reals, where JsonTokens.StrtodOfNumeral says what; the rounding of C to a double is not modelled.
- JsonParser.ParseBuffer.ParseNumber: returns the exact value where C rounds to the nearest double; the two agree for integers up to 2 to the 53.
- JsonRoundTrip.StrtodOfDecimal: is about exact values; it is only used for integers of 32 bits, which a double holds exactly.
- JsonPrint.PrintBuffer.PrintNumber: takes the text that `%g` gives as an input; PrintValue passes on integers of 32 bits alone.
- Md5.State.Append: wants the sum of the piece and the buffer offset to be an int, because the C code computes it as one.
- Checks.ChecksDecide: is about runs of checks alone, where the count is reached exactly; in runs with other events it can be passed, as Checks.ChecksDecideInRuns says.
- UriModes.UriStopsAtQuestion: wants every percent sign to start an escape; behind one that does not, a question mark does not end decoding.
- UriModes.RedirectKeepsMeaning: wants the same, as a lone percent sign can be left in the result, where it starts a new escape; the two flags at once are left to Uri.Advance.
- `uct_pmemalign`, `uct_pcalloc`, cleanup handlers and destroying a pool: they add nothing to the layout of memory.
- `src/uct_list.c`, `src/uct_buf.c`, and the comparison and search helpers of `src/uct_string.c`: easier code with easier claims.
