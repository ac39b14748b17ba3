# The Baga runtime, modelled and proved

Baga compiles to C. Most of its runtime is C text that `src/codegen_api.c` emits; the parallel part is
`src/baga_par_rt.c`. This project models that runtime, and parts of the compiler, in Dafny, and proves
what the code is relied on for. `dafny verify dfyconfig.toml` checks everything.

| file | what it models |
|---|---|
| `Region.dfy`, `RegionSize.dfy`, `RegionUse.dfy`, `RegionFacts.dfy`, `Worlds.dfy` | a world: one growable block of bytes with a header, a container table, vectors, maps and records in it; compaction, dump and load |
| `Probing.dfy`, `TableRuns.dfy`, `WCache.dfy` | open addressing with tombstones, what whole runs of it can come to, and the cache of a frozen world |
| `AllocLog.dfy` | the allocation logs of the parallel runtime, one per thread, with mark and rewind and the search of all logs |
| `Links.dfy` | capability links between worlds |
| `BumpArena.dfy` | the bump arena with free lists threaded through freed blocks, mark and rewind |
| `Channel.dfy`, `PoolMap.dfy` | bounded channels and the worker pool, as interleaved steps |
| `Paths.dfy`, `WrongDrops.dfy`, `MustDrop.dfy` | the checker's analysis of which variables are certainly dropped and which drops are wrong, against the executions of a statement |
| `ChainMap.dfy` | the language's `Map`, a chaining hash table relinked in place |
| `Clausal.dfy`, `SatSolver.dfy` | the SAT solver of the bit-vector verifier: propagation, conflict analysis, clause learning, jumping back |
| `EditDistance.dfy`, `CString.dfy` | the "did you mean" suggestion, and the printer of C string literals |
| `Common.dfy` | what several of them share |

How the source is read:

- A block of memory is modelled by offset. In a region a word has an eight-cell footprint with its value in the
  first cell; every byte of the region has a ghost owner, and framing is by owner. In the arena an address is a
  block and an offset.
- Hash functions are arbitrary functions, so nothing depends on their quality. Where a result needs keys at home in
  given slots, it says so (`TableRuns.Covers`, `TableRuns.Spread`).
- A check of the runtime that ends in `exit(1)` is a precondition, but for those of a rewind and of linking two worlds, where
  the result says whether it fired. `RegionFacts.ChecksPass` proves that the range
  checks of the region operations never fail on a well-formed region.
- Integers are unbounded.
- A method that changes state is proved against a function of the old state; what that function means is then proved
  by lemmas. Concurrency is a state machine whose steps are the critical sections.

## Findings

| where | what the source says | what is proved |
|---|---|---|
| `src/codegen_api.c:1487-1491` | live entries and tombstones never fill the table, an empty slot always remains and every probe stops | False. From every table just built of a power of two `cap >= 16` slots, and for every hash under which no slot runs out of keys, no run with at most `d` deletions leads to a lookup or deletion that hangs exactly if `4 * d < cap`, and none to a put that hangs exactly if `4 * d <= cap` (`TableRuns.LookupBound`, `PutBound`; over all hashes and any number of entries a table can be built with, `PromiseEnds`). A table just built, new, doubled or compacted, is one without tombstones and at most half full (`WCache.Cache.constructor`, `Grow`, `Put`, `Worlds.World.WMapSet`, `CompactedLeavesRoom`). `WCache.Stuff` drives a new cache of 16 slots, by four set/delete pairs and twelve sets, to a state where a lookup of a missing key never returns. The table of the allocation log counts tombstones, and there the claim holds (`AllocLog.Log.AlwaysRoom`) |
| `src/codegen_api.c:216-221` | a rewind out of order is a clean error | Only if the mark's block is not in the chain (`BumpArena.Allocator.Rewind`, for any mark at any time). A mark overtaken by a rewind to an earlier one passes exactly if its block is the one rewound to or has been taken back from the spares since (`StaleExactly`, over whole runs `StaleRun`). `StaleMark` is such a run: the stale mark is accepted although a block handed out since lies across it, and the next block handed out overlaps that one |
| `src/codegen_api.c:210` and `src/codegen_api.c:213` | the power-of-two free lists go up to 32 MiB | Twelve classes from 2 KiB end at 4 MiB (`BumpArena.TopClass`); larger blocks are carved exactly and never recycled |
| `src/baga_par_rt.c:598-623` | a mark of the allocation log is a position in its list, and a rewind frees what came after it | Not quite: a block that `realloc` moved is freed by a rewind exactly if it is not persistent and its old or its new address stands in the list after the mark (`AllocLog.MovedThenRewound`). So a block older than the mark is freed when `realloc` moves it to an address whose entry after the mark has outlived its block; `AllocLog.OldBlockFreed` is such a run |
| `src/codegen_api.c:2447` | a link is refused if it closes a cycle, or the graph is too large to check | Exactly then, too large meaning a chain of more than 64 links below the target or more than 10000 walks (`Links.SearchExact`, `Links.Family.Link`) |
| `src/checker_env.c:1394` | the join of a match without arms touches nothing | It clears the overflow flag of the log, so it leaves log, marks and flag as they were exactly if the flag was not set (`MustDrop.NoArms`, `MustDrop.Checker.JoinArms`) |
| `src/verify_bv_sat.c:345` | a conflict right after a jump back is analyzed again | Only if the next propagation finds it again, and it does whenever no clause repeats a literal (`Clausal.FoundEarly`, `SatSolver.Solver.Again`); then "satisfied" is right (`SatSolver.Solver.Solve`). `SatSolver.Repeats` takes the solver's steps on `[[2, -1, 2], [-2, -1, -2]]`: the false clause is found with nothing left to propagate, is not found again, and the answer is "satisfied" with a false clause. This goes one way: a formula with a repeated literal may be answered rightly. The verifier's multiplexer gates repeat a literal exactly if an input is the selector or its negation (`SatSolver.MultiplexerMeans`), as when a word is shifted by itself; it replays what it is answered, so that the mistake costs it an answer only |
| `src/verify_bv.c:635-639` | clause learning stays off until the conflict analysis has been audited, because it gave false proofs | The code turns it on (line 644). With it, "unsatisfiable" is right for every formula (`SatSolver.Solver.Solve`) |

## Model

| member | source | states |
|---|---|---|
| Worlds.LoadDumpCompact | src/codegen_api.c:2277-2314 | a world dumped in compacted form and loaded is well formed, holds the same containers with the same kinds and contents under the same ids, has exactly `CompactBytes` of that store in bytes, no map in it has a tombstone, and no byte is wasted |
| Worlds.World.CompactBuild | src/codegen_api.c:2194-2268 | the rebuilt region stands for the same store as the old one, its size is a function of the store alone (so compacting twice changes no size), its maps have no tombstones, and every byte but for the tables' belongs to the header, to a block of a container, or to a payload that a container holds |
| Worlds.World.Compact | src/codegen_api.c:2269-2276 | compaction in place keeps the store, hence every answer of every reader, and sets the size to `CompactBytes` |
| Worlds.World.Load | src/codegen_api.c:2299-2314 | any blob with room for a header, the magic number and the version is taken as it is; it is a valid world, with the store its bytes stand for, if and only if the bytes are a well-formed region |
| RegionFacts.StoreDetermined | src/codegen_api.c:1727-2149 | bytes mean one thing: two stores that the same region stands for are equal, whatever ownership is assumed |
| RegionFacts.LiveBlocksApart | src/codegen_api.c:1740-2149 | header, table, headers and data of containers and payloads lie inside the region and are pairwise disjoint |
| RegionFacts.NothingDead | src/codegen_api.c:2194-2268 | after a compaction every byte lies in a live block, except in the tables given up while the table of containers grew |
| RegionFacts.ChecksPass | src/codegen_api.c:1727-1814 | on a well-formed region the range checks of `wres`, `wvec_at`, `wmap_at` and `wrec_at` succeed for every valid id |
| Worlds.World.WVecPush | src/codegen_api.c:1876-1906 | a push, growing or not, appends one element to that vector; no other id changes and no byte of another owner |
| Worlds.World.WVecPushStr | src/codegen_api.c:1919-1926 | the same for a string, whose bytes are copied into the region |
| Worlds.World.WVecGet | src/codegen_api.c:1912-1918 | reads the element of the abstract vector |
| Worlds.World.TblAdd | src/codegen_api.c:1740-1758 | a finished container gets the next id, the table doubling when full; all ids keep their offsets and contents |
| Worlds.World.WMapSet | src/codegen_api.c:1993-2019 | binds exactly that key in that map, through doubling; without doubling it is a put step of the table, with it the new table has no tombstone |
| Worlds.World.MapGrow | src/codegen_api.c:1993-2011 | doubling and storing every live pair again keeps the abstract map and drops all tombstones |
| Worlds.World.WmInsert | src/codegen_api.c:1954-1968 | writes the slot where the key lives, or else the first reusable one on its path, and the abstract map is updated at that key |
| Worlds.World.WMapDel | src/codegen_api.c:2032-2038 | removes exactly that key; the table makes a deletion step |
| Worlds.World.WMapGet | src/codegen_api.c:2020-2026 | answers with the abstract map, 0 for a missing key |
| Worlds.World.CompactedLeavesRoom | src/codegen_api.c:2194-2268 | after a compaction every map counts as just built (no tombstone, at most half full), and every probe in it stops |
| Worlds.World.TombsLeaveRoom | src/codegen_api.c:1954-2038 | with fewer than a quarter as many tombstones as slots every lookup stops, with a quarter every put |
| Worlds.World.WRecSet | src/codegen_api.c:2099-2105 | sets one field of one record and nothing else |
| Probing.StopsIff | src/codegen_api.c:1487-1491 | a probe for a key can stop exactly when some slot is empty or the key is present |
| TableRuns.RunKeeps | src/codegen_api.c:1492-1535 | over every run without growth: well formed, at most as many tombstones as deletions, at most 3/4 live |
| TableRuns.LookupBound | src/codegen_api.c:1487-1535 | from every table just built, for every hash under which no slot runs out of keys: no run with at most `d` deletions leads to a lookup or deletion that hangs, if and only if `4 * d < cap` |
| TableRuns.PutBound | src/codegen_api.c:1487-1514 | and none to a put that hangs, if and only if `4 * d <= cap` |
| TableRuns.PromiseEnds | src/codegen_api.c:1487-1535 | both bounds, quantified over all hashes and all tables built with a given number of entries |
| TableRuns.FillingRun | src/codegen_api.c:1492-1535 | the runs that fill a table just built: `p` set/delete pairs, then `q` sets, each of a new key at home in an empty slot |
| WCache.Stuff | src/codegen_api.c:1487-1535 | such a run of the cache itself, on its initial table of 16 slots: four deletions, twelve live entries, no lookup of a missing key returns |
| WCache.Cache.Put | src/codegen_api.c:1492-1514 | binds exactly that key; without growth it is a put step that writes the landing slot, with growth the table doubles and forgets its tombstones |
| WCache.Cache.Grow | src/codegen_api.c:1492-1514 | doubling keeps the entries, through the recursive puts |
| WCache.Cache.Slot | src/codegen_api.c:1515-1524 | finds the slot of a key exactly if it is bound, and terminates while a probe can stop |
| WCache.Cache.Del | src/codegen_api.c:1531-1535 | removes exactly that key, leaving a tombstone; a missing key changes nothing |
| WCache.Cache.Add | src/codegen_api.c:2345-2356 | adds to the stored number, or to 0 |
| AllocLog.Log.AlwaysRoom | src/baga_par_rt.c:407-455 | because tombstones count, an empty slot remains in every state, without a condition on deletions |
| AllocLog.Log.Slot | src/baga_par_rt.c:407-422 | the slot of a logged pointer, or an empty one, or for insertion the landing slot; it always terminates |
| AllocLog.Log.Put | src/baga_par_rt.c:445-455 | logs a block; `fill` counts non-NULL slots, `used` live ones, and `fill * 10 <= cap * 7` again |
| AllocLog.Log.Malloc | src/baga_par_rt.c:491-509 | logs the block, appends it to the list, and `live`, `live_p` and `peak` stay the size sums they are |
| AllocLog.Log.Free | src/baga_par_rt.c:564-578 | one log: exactly that pointer is forgotten and its size taken off the right counter, or nothing changes if it is not logged |
| AllocLog.Registry.Free | src/baga_par_rt.c:564-597 | all logs: whichever knows the block forgets it, the calling thread's being asked first, and no other log changes; no block is ever logged by two threads |
| AllocLog.Log.Realloc | src/baga_par_rt.c:510-535 | one log: the list keeps its length, and only its latest occurrence of the old pointer becomes the new one; the entry keeps its kind, the counter of that kind changes by the difference, the peak follows; a pointer that is not logged changes nothing |
| AllocLog.Registry.Realloc | src/baga_par_rt.c:510-563 | all logs: the same, in the log that knows the block, whichever thread asks; no other log changes |
| AllocLog.ReplacedLatest | src/baga_par_rt.c:472-476 | the list changes at the latest occurrence only, or not at all |
| AllocLog.MovedThenRewound | src/baga_par_rt.c:472-623 | a block moved by a realloc is freed by a rewind if and only if it is not persistent and its old or new address stands in the list after the mark; otherwise it is still logged, with its new size |
| AllocLog.OldBlockFreed | src/baga_par_rt.c:491-623 | a run in which a rewind frees a block allocated before the mark |
| AllocLog.Log.Rewind | src/baga_par_rt.c:604-623 | the prefix stays, the suffix becomes its persistent survivors in order, exactly the other logged pointers of it are freed, and `live` falls by just their sizes |
| AllocLog.FreedExactly | src/baga_par_rt.c:604-623 | despite duplicates in the list, each such pointer is freed once and nothing else is |
| AllocLog.KeptExactly | src/baga_par_rt.c:604-623 | the survivors are the persistent logged pointers of the suffix |
| AllocLog.KeptInOrder | src/baga_par_rt.c:604-623 | in the order of the list, those listed twice twice |
| Links.SearchSound | src/codegen_api.c:1551-1558 | if the bounded search answers no, the target really cannot be reached, whatever the bounds |
| Links.SearchComplete | src/codegen_api.c:1551-1558 | a yes within the bounds, on a graph no deeper than they allow, means it can |
| Links.SearchExact | src/codegen_api.c:1551-1558 | the search answers no if and only if the target cannot be reached and the graph is small enough: no chain longer than the depth left, no more walks than steps left |
| Links.Family.Reaches | src/codegen_api.c:1551-1558 | the recursive loop answers no exactly then |
| Links.Family.Link | src/codegen_api.c:2441-2457 | the link is made, once, if and only if the owner is not frozen, no cycle would close, and the graph below the target has no chain of more than 64 links and at most 10000 walks; the graph stays acyclic and every counter its in-degree |
| Links.Family.Unlink | src/codegen_api.c:2458-2468 | takes one link off by swapping in the last, and corrects the counter |
| Links.Family.Free | src/codegen_api.c:1589-1600 | frees a world nobody links to and gives up its links; no link points to a freed world |
| Links.Family.NoCycle | src/codegen_api.c:1551-1558 | in every state the link graph has no cycle |
| Links.AllCanBeDrained | src/codegen_api.c:1589-1600 | every family of worlds can be freed in some order, each when nobody links to it |
| BumpArena.CarvedSuits | src/codegen_api.c:420-470 | a carved block, freed at any size up to what was asked, is never filed under a class larger than it |
| BumpArena.RecycledSuits | src/codegen_api.c:394-456 | nor is a recycled one, for whatever it was asked for next |
| BumpArena.HandedOutApart | src/codegen_api.c:394-516 | a block handed out holds its size and is disjoint, header included, from every other handed-out or free block and from the uncarved rest |
| BumpArena.ProgramWrites | src/codegen_api.c:394-516 | a program that writes inside its own blocks corrupts no link, no header and no other block |
| BumpArena.Allocator.Alloc | src/codegen_api.c:420-516 | returns a block that was not handed out, for the size asked; every other block keeps its size and its contents, header included. It is the head of the list of its class if there is one, and otherwise carved from the newest block, the first spare one if that is large enough, or a new one |
| BumpArena.Allocator.Free | src/codegen_api.c:394-418 | takes back just that block: it becomes the head of the free list of its class, is dropped if too large, or goes to malloc if persistent; nothing else changes |
| BumpArena.FreedComesBack | src/codegen_api.c:394-456 | a block given back is the one that the next request of its class gets, and the lists are as before |
| BumpArena.Allocator.Rewind | src/codegen_api.c:601-639 | any mark, whenever taken: accepted if and only if its block is in the chain, and then exactly the blocks wholly below it stay handed out, memory is unchanged and the arena well formed; if the mark still stands, what was handed out when it was taken and not freed since stays, and marks below still stand |
| BumpArena.StaleExactly | src/codegen_api.c:601-624 | a mark overtaken by a rewind to an earlier one is accepted later if and only if the chain has taken back its block since: depth at most that of the mark rewound to plus the spares taken back |
| BumpArena.StaleRun | src/codegen_api.c:473-507 | the same along every run that carves, frees and allocates without another rewind |
| BumpArena.Allocator.NewBlock | src/codegen_api.c:473-507 | the chain grows by the first spare block exactly if that is large enough and otherwise by one of just the size asked, no other block changes, and no mark moves |
| BumpArena.StaleMark | src/codegen_api.c:594-639 | a run in which a rewind out of order succeeds and the next block handed out overlaps one handed out before |
| BumpArena.Exposed | src/codegen_api.c:601-639 | the next block carved after such a rewind overlaps that one |
| Channel.Chan.Send | src/baga_par_rt.c:102-113 | on the ring buffer: refused if and only if closed, parks if and only if open and full, and otherwise the value goes to the end of the queue |
| Channel.Chan.Recv | src/baga_par_rt.c:114-152 | on the ring buffer: takes the oldest value if there is one, closed or not; without one, reports closed if and only if closed and parks otherwise |
| Channel.RunKeeps | src/baga_par_rt.c:102-152 | over every interleaving of senders and receivers, with spurious wake-ups: accepted values are those received followed by the queue, and no wake-up is lost |
| Channel.ClosedIsFinal | src/baga_par_rt.c:114-137 | in every run, once closed is reported everything accepted has been received, and this is so for ever |
| Channel.HistoryGrows | src/baga_par_rt.c:102-152 | in every run the accepted and the received values only grow, and nothing is accepted after a close |
| Channel.SendEnds | src/baga_par_rt.c:102-113 | in every run, the last step of a call that sends appends its value to what was accepted if the channel is open then, and nothing if it is closed |
| Channel.Delivered | src/baga_par_rt.c:102-113 | in every run, a call to send that is over while the channel is open has had its value accepted |
| Channel.ReceiverWillRun | src/baga_par_rt.c:102-125 | while a receiver sleeps unsignalled and a value is there, another receiver has been signalled |
| Channel.NobodySleepsAfterClose | src/baga_par_rt.c:301-310 | after a close nobody is parked unsignalled |
| PoolMap.RunKeeps | src/baga_par_rt.c:335-377 | in every run each index sent is in exactly one of: jobs, a worker, results, stored; every answer under way is right |
| PoolMap.ResultIsMap | src/baga_par_rt.c:350-377 | when the call returns, `out[i] == fn(in[i])` for all `i`, under every interleaving |
| PoolMap.SendsNeverBlock | src/baga_par_rt.c:335-377 | no send of the caller or of a worker ever parks |
| PoolMap.NotStuck | src/baga_par_rt.c:335-377 | until the call returns, some thread can move without a spurious wake-up |
| PoolMap.MeasureFalls | src/baga_par_rt.c:335-377 | every such move brings the end nearer |
| PoolMap.RunIsShort | src/baga_par_rt.c:335-377 | every run, under every interleaving, has at most `16 * n + 4 * k + 8` steps for `n` elements and `k` workers, plus two per spurious wake-up |
| MustDrop.Checker.Infer | src/checker_expr.c:221-920 | after any nest of sequence, block, if, match, catch and loops that fits the log, a variable in scope counts as dropped exactly if it did before or every path drops it, and the errors reported are as many as there are wrong drops in it, so none if and only if no drop is wrong: a drop is wrong if every execution that gets there finds the variable out of scope, from outside the loop, or dropped already. Without room no variable is marked wrongly and no error is invented |
| WrongDrops.SomeReach | src/checker_infer.c:1036-1075 | every drop written is reached by some execution, so that none is wrong for want of one |
| WrongDrops.CatchVerdicts | src/checker_expr.c:579-627 | the wrong drops of a catch are those of its body, and those of its handler judged as if the body had dropped nothing |
| WrongDrops.LetVerdicts | src/checker_expr.c:657-720 | after a declaration, drops are judged by what was dropped before it or on every path through its initialiser |
| MustDrop.Checker.NoteDrop | src/checker_infer.c:1036-1075 | a drop is an error, and not recorded, for an unknown or dropped variable or one from outside the loop; with a full log it is not marked |
| MustDrop.Checker.Join2 | src/checker_env.c:1365-1389 | the in-place join of two branches keeps marked and logged what both dropped, or lifts all after an overflow |
| MustDrop.Checker.JoinArms | src/checker_env.c:1395-1434 | the join of all arms keeps what every arm dropped, although it overwrites arm 0 of the log while still searching it; with no arms it only clears the overflow flag |
| MustDrop.NoArms | src/checker_env.c:1391-1400 | the join of no arms leaves log, marks and overflow flag as they were if and only if the flag was not set |
| MustDrop.Checker.InferMatch | src/checker_expr.c:764-920 | a match concludes just what every path through it does; no arm sees the drops of another |
| MustDrop.Checker.InferCatch | src/checker_expr.c:579-627 | a catch concludes what both the body and the handler drop |
| Paths.NeverOuter | src/checker_infer.c:1055-1063 | no variable from outside a loop is dropped on every path inside it |
| SatSolver.Solver.Solve | src/verify_bv_sat.c:265-365 | "unsatisfiable" only if no assignment satisfies the formula, for every formula, phase and budget; "satisfied" only with an assignment that does, if no clause repeats a literal; "undecided" only after one conflict more than the budget, each but the last of which has left a learned clause; it always ends |
| SatSolver.Solver.ThreePhases | src/verify_bv.c:640-648 | the same for the verifier's three attempts, which keep what was learned; undecided only after all three, each of which has used up the unchanged budget |
| SatSolver.Solver.Analyze | src/verify_bv_sat.c:190-263 | from any conflict above level 0: the learned clause follows from the formula, repeats nothing, its first literal alone is of the current level, and the level to go back to is the highest of the others; so its guards never fire |
| SatSolver.Solver.Propagate | src/verify_bv_sat.c:133-168 | what is made true has a reason; without conflict every clause is true or has two places that are not false; with one, the clause named is false |
| SatSolver.Solver.Jump | src/verify_bv_sat.c:327-342 | back at that level the learned clause is unit, its literal is made true, and all clauses are as propagation left them there |
| SatSolver.Solver.Units | src/verify_bv_sat.c:266-289 | before any decision: no model, or nothing left that follows by unit clauses |
| Clausal.Resolve | src/verify_bv_sat.c:207-239 | resolving with the reason of a literal keeps what is gathered a consequence of the formula, literals false from the start left out |
| Clausal.FoundEarly | src/verify_bv_sat.c:139-168 | a conflict in a clause without repetitions is found before the last of its literals is propagated |
| SatSolver.Repeats | src/verify_bv_sat.c:327-350 | the steps on a formula with repeated literals that lead to a wrong "satisfied" |
| SatSolver.MultiplexerMeans | src/verify_bv.c:203-222 | the clauses of a multiplexer say what it does, and exactly when they repeat a literal |
| ChainMap.Map.Slot | src/codegen_api.c:1111-1117 | finds the entry of a key, or the end of its chain, and the link that leads there |
| ChainMap.Map.Rehash | src/codegen_api.c:1118-1134 | twice the buckets, the same entries relinked into them, the same bindings |
| ChainMap.Map.Put | src/codegen_api.c:1135-1158 | the entry of the key, a new one at zero if there was none; grows above 3/4 |
| ChainMap.Map.Set | src/codegen_api.c:1166-1171 | binds exactly that key |
| ChainMap.Map.Del | src/codegen_api.c:1222-1238 | removes exactly that key, cutting its entry out of the chain |
| ChainMap.Map.Keys | src/codegen_api.c:1260-1267 | lists every key of the map exactly once |
| EditDistance.EntryIsLeast | src/checker_env.c:948-968 | the recurrence gives the least cost over all edit scripts of insertions, deletions, replacements and swaps of neighbours, for all strings |
| EditDistance.Distance | src/checker_env.c:948-968 | the table computes that for names of 1 to 63 bytes, and 99 otherwise |
| EditDistance.Suggest | src/checker_env.c:973-986 | names under three bytes get no suggestion; those of three to five get one if and only if some candidate is one edit away, longer ones if and only if one is within two; it is the earliest of least distance |
| CString.EmitCString | src/codegen_expr.c:7-29 | the literal written reads back, by the escapes of C11 6.4.4.4, as the string |
| CString.ReadEscape | src/codegen_expr.c:19-25 | each escape reads back as its byte whatever follows, digits included |

## Left out

- Raw addresses, and a container header that moves under a pointer held across a growth of its region.
- Integer width: lengths, counters and capacities are unbounded; no multiplication or shift overflows.
- Hash quality. Out-of-memory paths. Printing, files, signals, sleep, statistics.
- The `--rc` mode, and the LLVM back end.
- Regions: the freeze mark of a handle, `world_alloc` of raw bytes by the program, and any claim that compaction never grows a region: a map gets a power of two of at least twice its entries, so 12 entries in 16 slots become 12 in 32.
- Worlds.World.Load: what operations do in a damaged image, which the check lets through.
- The payloads of the world cache are values here; the copies it makes and frees, its creation on first use, its clearing and its lock are not modelled.
- Worlds.World.WMapSet: requires that the put grows the map or that its probe stops; by the bounds above that is what a caller has to know.
- AllocLog.Registry.Realloc: the new pointer is a parameter, and `realloc` of NULL, which no caller makes, is excluded: the probe would take an empty slot for its entry. Calls are taken one after another; the locks are not modelled.
- BumpArena.Allocator.Rewind: after an error the program ends, and nothing is promised. The mark's own record is freed by a rewind, so that a mark used twice is read after it was freed, which is not modelled.
- The arena's cached string length in the header (`baga_set_slen`), the address range and block test that guards it, and the counters of arena bytes. A header here says only whether its block is persistent.
- Channels: `recv_timeout`, `select2` and its variants, where a waiting selector may take a signal from one channel and a value from another; channel handles and their release; `go`, `join`, `detach`, mutexes.
- PoolMap: an empty input or no worker, for which the source returns at once or starts one worker; the threads' own creation.
- MustDrop.Checker.NoteDrop: the rejections of parameters and of variables captured by a lambda.
- MustDrop.Checker.Infer: names are resolved to slots already; types, effects, the limits on scopes and variables per scope, early exit by `return`, parameters and variables captured by a lambda (whose drop is rejected), regions and arenas that share the log, and the log of freezes are not modelled. When drops overflow the log, only that none is marked wrongly and no error invented is shown.
- ChainMap: one key type at a time, with equality; the integer, string and byte-string variants and the boxed values that are freed with an entry are instances. An entry's storage is not freed.
- CString: trigraphs, which C11 5.2.1.1 replaces before the escapes are read, and which a string with two question marks can contain.
- SatSolver: the mode without learning, which no caller uses; there, once both values of a decision have failed, the value of the decision before is not changed. The growth of its buffers. The translation of programs to clauses, but for the multiplexer, and the replay of the answer.
- The Fourier–Motzkin verifier is not part of this model.
