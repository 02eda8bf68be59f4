# Marlin: a verified model of its hitless core

Marlin is a stateless XDP layer-4 load balancer. Its loader, `marlind`, rewrites the forwarding
maps while packets flow through them. This project models the parts of Marlin whose correctness
spans many steps or many functions, and proves what they promise. The table size, the number of
VIPs, backends, CPUs and retries are parameters throughout, so nothing rests on a bound.

| file | what it holds |
|---|---|
| `Types.dfy`, `Counting.dfy` | VIP keys and values; cardinality facts |
| `BlockAccounting.dfy`, `VipAlloc.dfy` | the block planner (`vip_alloc.c`) and the counting argument for its completeness |
| `FwdGen.dfy` | rendezvous tables (`fwd_gen.c`) |
| `Acl.dfy`, `ConfCheck.dfy` | verdicts (`acl.c`), prefix coverage and the key checks (`conf_check.c`) |
| `LiveMaps.dfy`, `Reconcile.dfy` | the live maps, the single operations on them, and `reconcile_apply` as a run of such operations, each of which may fail |
| `RateLimit.dfy` | the compare-and-swap token bucket under arbitrary interleavings (`ratelimit.c`, `rl_scale.h`) |
| `Parser.dfy`, `Affinity.dfy` | the parser (`parser.c`), and why a flow, its ICMP errors and its fragments get one tuple |
| `Wire.dfy` | packets laid out on the wire, and the parser as the inverse of that layout |
| `LbCore.dfy` | VIP, row and backend selection, QUIC connection IDs (`lb_core.c`) |
| `Hitless.dfy` | what packets get while a run rewrites the maps, in one state or across several |
| `Checksum.dfy`, `Encap.dfy`, `Decap.dfy` | one's-complement sums (`csum.h`), the three tunnels over one overlapping buffer, and the receiving end |

`dafny verify dfyconfig.toml` checks everything.

## How the main arguments go

**Planner completeness.** `VipAlloc.Allocate` succeeds on exactly the inputs it accepts, even when
every block is in use. In a stuck state every block is accounted for by a key of its own
(`BlockAccounting.Payers`): a written entry pays for its block with its first key, any other
referenced or claimed block is paid for by a foreign reference. One key is left over: some
unwritten entry still refers to its own block, because otherwise all of them would have claimed
in the fallback pass, whose references all point to blocks claimed in the first pass. Keys number
at most as many as blocks, so a free block exists (`BlockAccounting.StuckLeavesFreeBlock`).

**Hitless reconfiguration.** `Reconcile.Maps` records every state the kernel maps pass through, from
the one a run starts in to the current one. Consecutive states differ by one map operation of a
kind the run is allowed (`LiveMaps.Allowed`). `Apply` proves one predicate, `LiveMaps.Sound`, of all
of them, including the state a failed run leaves: a key that was live and is still configured stays
live; each live key leads only to rows of its own VIP, old or new, and never to a block that was
released; every reachable row names a populated backend if that held before; a source with the
same verdict under old and new lists keeps it; the state is one a later run can start from.

`Hitless` turns this into what packets get. If the same entry serves a packet before and after the
run, it serves it in every state; a packet that one entry serves before and another after is found
in every state exactly when one of its two keys survives (`Hitless.NeverMissedExactly`), because
unwanted keys are deleted before new ones are written. A packet reads several maps, one after
another, and each read may see a different state. For filtering this changes nothing
(`Hitless.TornVerdict`). A packet that read its VIP's value before a later write still gets its own
VIP's row if the value was the new one or the VIP keeps its block (`Hitless.TornRow`), and may miss
it otherwise (`Hitless.TornRowCanMiss`); `docs/design/31-file-configuration.md:432-433` makes no
promise to such packets.

**Token bucket.** CPUs are interleaved at the granularity of reading the word, sampling the clock
and the compare-and-swap. The invariant carries a potential (`256 * spends + tokens`), the log of
all words the bucket has held, and for each CPU how many log entries its lost attempts account for.
What a packet was answered is recorded with what it saw, so nobody is refused a token that was there
(`RateLimit.RefusedOnlyWhenEmpty`) or admitted without trying (`RateLimit.FailOpenLostEverySwap`).

**Serving the configuration.** `Reconcile.Serves` says what maps serve a configuration, over its VIPs,
members and backends alone; every successful run ends in such maps. `FwdGen.Elected` fixes each row by
the hash, and `FwdGen.EveryChoiceIsSomeTable` shows that the hash sees row and member.

**The decision.** `LbCore.Served` says over parse, maps and hash where a packet goes;
`LbCore.TargetExactly` shows that the program decides nothing else.

**Affinity.** `Affinity.FlowOf` reads a flow off an IP packet on its own, with no limits. The
parser agrees with it wherever the packet lies in the frame, and a quoted prefix says what the
whole packet says exactly when it reaches past the ports. `Wire` ties both to the byte layout of
the protocols: frames are built from their fields, and parse back to them.

## Where the code and its documentation differ

- `data-plane/marlind/fwd_gen.c:49-54` calls the equal-weight path exact because `normalise` keeps
  the digest order. It keeps it only above the low 11 bits: for some hash function two members exist
  on which the two paths elect different backends (`FwdGen.PathsCanDisagree`), and
  `FwdGen.PathsAgreeExactly` states exactly when they agree.
- `data-plane/marlind/reconcile.c:198-313` takes an error while listing a trie for the end of the list
  and goes on to report success. A rule that was not listed survives, and if its list became empty,
  narrowing the list bits hides it (`Reconcile.CutListingHides`). After a successful run the tries are
  as configured exactly when every rule that had to go was listed, and no rule is hidden exactly when
  no rule of an emptied list was missed (`Reconcile.TriesConvergeExactly`, `Reconcile.NarrowCoversExactly`).
- `data-plane/marlind/conf_check.c:287-295` accepts any rule list that fits a trie, but a run inserts the
  new rules before it deletes the old ones. Two lists that each fit need not fit together
  (`Reconcile.RoomCanBeMissing`). Then the run fails, and the next attempt at the same lists starts
  without room as well (`Reconcile.RetryHasNoRoom`). When no operation fails, a valid start succeeds
  exactly if old and new rules fit together (`Reconcile.Maps.Apply`).
- The outer lengths are 16 bits wide and are computed from a packet length that no check bounds while
  `max_frame` is 0. The round trips of `Decap` hold exactly when the total length does not wrap.

## Model

| member | source | states |
|---|---|---|
| `Types.KeyEqIsMapEquality` | data-plane/marlind/vip_alloc.c:11-20 | the loader's field-by-field key comparison agrees with the hash map's whole-key comparison on every key the loader builds |
| `BlockAccounting.BlockerUnwritten` | data-plane/marlind/vip_alloc.c:141-149 | whoever blocks an unwritten entry is itself unwritten |
| `BlockAccounting.FallbackBlocker` | data-plane/marlind/vip_alloc.c:78-112 | a block claimed from the free numbers is referred to only by entries that kept one of their own |
| `BlockAccounting.SelfReference` | data-plane/marlind/vip_alloc.c:78-112 | in a stuck state some unwritten entry still refers to its own block |
| `BlockAccounting.Payers` | data-plane/marlind/vip_alloc.c:114-126 | if every block is used or referenced, pairwise distinct keys account for the blocks one by one |
| `BlockAccounting.SpareKey` | data-plane/marlind/vip_alloc.c:114-126 | in a stuck state some configured key accounts for no block at all |
| `BlockAccounting.StuckLeavesFreeBlock` | data-plane/marlind/vip_alloc.c:114-178 | capacity: every stuck state, however full, has a block that is neither used nor referenced |
| `BlockAccounting.CapacityIsNeeded` | data-plane/marlind/vip_alloc.c:141-167 | two VIPs that exchange an address are stuck; with fewer blocks than keys such a state can lack a free block |
| `VipAlloc.FindOwner` | data-plane/marlind/vip_alloc.c:27-37 | finds the first entry that holds a key, or reports that none does |
| `VipAlloc.BlockReady` | data-plane/marlind/vip_alloc.c:39-47 | true exactly when no other entry's key refers to the block |
| `VipAlloc.Blocker` | data-plane/marlind/vip_alloc.c:55-63 | names an entry that refers to the block, or UNSET exactly when the block is ready |
| `VipAlloc.Match` | data-plane/marlind/vip_alloc.c:65-76 | returns the first unclaimed baseline block in key order, then baseline order |
| `VipAlloc.ClaimBaseline` | data-plane/marlind/vip_alloc.c:81-88 | every entry ends the first pass with its first block that no earlier entry took |
| `VipAlloc.ClaimLowest` | data-plane/marlind/vip_alloc.c:90-112 | fails exactly when entries outnumber blocks; an entry without a block gets the lowest free one, all others keep theirs |
| `VipAlloc.Claim` | data-plane/marlind/vip_alloc.c:78-112 | the two passes together give distinct blocks by the documented preference |
| `VipAlloc.PreferenceUnique` | data-plane/marlind/vip_alloc.c:78-112 | the preference leaves no choice: it determines every claimed number |
| `VipAlloc.CycleMember` | data-plane/marlind/vip_alloc.c:150-164 | the walk over blocked-by edges ends on a member of a cycle of unwritten, mutually blocking entries |
| `VipAlloc.Relocate` | data-plane/marlind/vip_alloc.c:114-126 | succeeds exactly when a block is neither used nor referenced, and moves one entry there |
| `VipAlloc.Repoint` | data-plane/marlind/vip_alloc.c:170-174 | after a write all references of the entry, and no others, name its block |
| `VipAlloc.BreakCycle` | data-plane/marlind/vip_alloc.c:141-167 | relocation succeeds whenever the keys fit the table, and moves a member of a blocked cycle |
| `VipAlloc.SafeOrderExtends` | data-plane/marlind/vip_alloc.c:136-174 | writing a ready entry next keeps the order safe |
| `VipAlloc.AfterWriteValid` | data-plane/marlind/vip_alloc.c:169-174 | one iteration keeps blocks distinct and the references equal to what the live map will hold |
| `VipAlloc.TraceSoFar` | data-plane/marlind/vip_alloc.c:128-178 | in every stage of the loop exactly the entries ordered so far are written |
| `VipAlloc.MovedExactly` | data-plane/marlind/vip_alloc.c:141-174 | an entry leaves the block it claimed exactly when no entry was ready at its turn, and it is then on a cycle of entries that block each other in that very state |
| `VipAlloc.Order` | data-plane/marlind/vip_alloc.c:128-178 | orders all entries without failing when the keys fit; the order is safe, and the stages, from the state after the claim to the last, each follow from the one before: the first ready entry is written in place, or, if none is ready, a member of a blocked cycle to the lowest spare block |
| `VipAlloc.CountKeys` | data-plane/marlind/vip_alloc.c:196-201 | accepts exactly the groupings without empty groups whose keys fit the table |
| `VipAlloc.CollectReferences` | data-plane/marlind/vip_alloc.c:202-214 | rejects exactly the baselines with a number out of range; otherwise yields one reference per owned baseline key, in order |
| `VipAlloc.ReleaseList` | data-plane/marlind/vip_alloc.c:223-227 | lists exactly the baseline blocks that no entry ends up with, each once |
| `VipAlloc.SettledStays` | data-plane/marlind/vip_alloc.c:65-112 | on a live map that already matches, every entry keeps the number it has |
| `VipAlloc.OnlyCycleMembersMove` | data-plane/marlind/vip_alloc.c:141-167 | in a plan, an entry has another block than it claimed exactly when it was a member of a blocked cycle at its turn, with nothing ready |
| `VipAlloc.Allocate` | data-plane/marlind/vip_alloc.c:180-230 | succeeds on exactly the accepted inputs; the numbers are distinct and in range, the order is a safe permutation, the release list is exact, the numbers are those of the preference followed by the loop's own stages, a settled map stays |
| `FwdGen.PickRowEqualWeight` | data-plane/marlind/fwd_gen.c:55-73 | the row's member is the one with the highest digest, ties to the lowest id |
| `FwdGen.PickRowWeighted` | data-plane/marlind/fwd_gen.c:75-95 | the row's member is the one with the highest score, ties to the lowest id |
| `FwdGen.FwdGenBlock` | data-plane/marlind/fwd_gen.c:97-123 | every row of the array holds its elected member, or no backend if there are no members |
| `FwdGen.OrderIndependent` | data-plane/include/marlind/fwd_gen.h:48-51 | the same members in any order give the same block |
| `FwdGen.MinimalDisruption` | data-plane/marlind/fwd_gen.c:55-123 | with the path fixed, adding a member changes rows only to it, and removing it changes only the rows it held |
| `FwdGen.RowsNameMembers` | data-plane/marlind/fwd_gen.c:97-123 | every row names a member; it is empty only when there are none |
| `FwdGen.EveryChoiceIsSomeTable` | data-plane/marlind/fwd_gen.c:15-37 | row and member enter the hash: any two rows below 2^32 can be given any two members that differ in address, network or MAC, in either order, by the block of some hash function |
| `FwdGen.WeightDecides` | data-plane/marlind/fwd_gen.c:75-95 | weights enter the score: under some scorer the heaviest member, lowest id first, wins every row of every block, whatever the hash |
| `FwdGen.PathsAgreeExactly` | data-plane/marlind/fwd_gen.c:44-95 | with equal non-zero weights both paths elect the same backend exactly when a member with the highest digest has the lowest id among the members equal to it above the low 11 bits |
| `FwdGen.PathsCanDisagree` | data-plane/marlind/fwd_gen.c:44-54 | for some hash function, two members on adjacent digests for which the paths elect different backends |
| `Acl.CoversExactly` | data-plane/marlind/conf_check.c:315-340 | one prefix covers another exactly when it is no longer and agrees with it on its own bits |
| `Acl.PrefixCovers` | data-plane/marlind/conf_check.c:315-340 | the byte and mask loop decides whether every address under the inner prefix lies under the outer one |
| `Acl.HostBitsSet` | data-plane/marlind/conf_value.c:195-214 | finds a bit below the prefix length exactly when there is one |
| `Acl.TrieIdentity` | data-plane/marlind/conf_check.c:304-306 | with clear host bits, two rules a longest-prefix trie takes for the same are equal |
| `Acl.VerdictExactly` | data-plane/bpf/acl.c:19-80 | over rules and source: allowed exactly when a rule of the family's switched-on allow list holds the source, blocked exactly when none does and a rule of its block list does; other families and a disabled filter have no verdict |
| `Acl.VerdictSteady` | data-plane/bpf/acl.c:19-58 | a state whose tries lie between old and new, with the bits of both set, gives the common verdict to every source on which old and new agree |
| `ConfCheck.CheckVipKeys` | data-plane/marlind/conf_check.c:254-285 | reports nothing exactly when the keys fit the map and no two configured keys are the same |
| `ConfCheck.CheckDeadRules` | data-plane/marlind/conf_check.c:342-360 | reports exactly the block rules that some allow rule covers |
| `ConfCheck.DeadRulesRemovable` | data-plane/marlind/conf_check.c:342-360 | dropping all block rules reported dead at once changes the verdict of no source |
| `LiveMaps.CellWrite` | data-plane/marlind/reconcile.c:82-112 | writing one cell of a block changes no row of any other block |
| `LiveMaps.WriteBlockPhase` | data-plane/marlind/reconcile.c:592-643 | a fully written block keeps every live key on its own rows and readies the entry for publishing |
| `LiveMaps.PublishPhase` | data-plane/marlind/reconcile.c:592-643 | pointing one key at its written block keeps every live key on its own rows |
| `LiveMaps.ReleasePhase` | data-plane/marlind/reconcile.c:582-590 | zeroing a released block, in any part, disturbs no live key |
| `LiveMaps.RoutedPopulated` | data-plane/marlind/reconcile.c:496-544 | rows of old and new tables name populated backends while both old and new backends are there |
| `LiveMaps.MovingSafe` | data-plane/marlind/reconcile.c:692-696 | while blocks and keys move, configured keys stay live, every live key is on its own rows, and the blocks entries end up with hold nothing foreign that they did not hold before |
| `LiveMaps.StepKeepsDone` | data-plane/marlind/reconcile.c:647-715 | no single operation of a run spoils a complete block |
| `LiveMaps.DoneStays` | data-plane/marlind/reconcile.c:647-715 | a complete block stays complete for the rest of the run |
| `LiveMaps.WantedStays` | data-plane/marlind/reconcile.c:514-544 | a wanted backend that is there stays there for the rest of the run |
| `Reconcile.PlanIsRun` | data-plane/marlind/reconcile.c:165-189 | a safe plan yields a run whose writes may be executed in its order |
| `Reconcile.ResolveMembers` | data-plane/marlind/reconcile.c:605-621 | the loop over a VIP's members yields, for each, its id and weight with the address, network and MAC of the first backend of that id, zeroes if there is none |
| `Reconcile.ResolvesMembers` | data-plane/marlind/reconcile.c:605-621 | what is resolved for a VIP is exactly the set of members its configuration describes, every one of them with its own weight |
| `Reconcile.FinishedServes` | data-plane/marlind/reconcile.c:592-715 | where a successful run ends, each configured key and no other is live with its VIP's flags and hash key, each row of its block holds the one elected among exactly the members the configuration lists, VIPs have separate blocks, and each backend slot a configured backend of that id |
| `Reconcile.Maps.Write` | data-plane/marlind/reconcile.c:567-643 | one allowed map operation that leads to a safe state: it happens and is recorded, or fails and changes nothing |
| `Reconcile.Maps.ReadVipBaseline` | data-plane/marlind/reconcile.c:130-163 | lists every live key once with its number, or fails on a failed lookup, too many keys or a number out of range |
| `Reconcile.Maps.RemoveStaleVipKeys` | data-plane/marlind/reconcile.c:567-580 | deletes exactly the keys no entry wants; every state on the way is sound |
| `Reconcile.Maps.InsertRules` | data-plane/marlind/reconcile.c:198-313 | every state is sound and the trie ends as old and new rules together; without a failing write it fails exactly when they do not fit, with every old rule still there |
| `Reconcile.Maps.RemoveUnwanted` | data-plane/marlind/reconcile.c:198-313 | every state is sound and what was listed and is not wanted is gone |
| `Reconcile.Maps.ReconcileTrie` | data-plane/marlind/reconcile.c:198-313 | the trie ends as the new rules and the old ones that were not listed; other tries are untouched |
| `Reconcile.Maps.WriteBackends` | data-plane/marlind/reconcile.c:496-512 | all configured backends are populated, none is removed, every state is sound |
| `Reconcile.Maps.WriteFwdBlock` | data-plane/marlind/reconcile.c:82-112 | row by row over safe states, whether the batch stops early or the row loop does; only rows of this block change, to their new value, and all have it on success |
| `Reconcile.Maps.WriteVip` | data-plane/marlind/reconcile.c:592-643 | the table generated from the resolved members, then the keys: every state on the way is sound; on success the block is complete and all keys of the entry lead to it, lists and backends untouched |
| `Reconcile.Maps.ReleaseStaleVipBlocks` | data-plane/marlind/reconcile.c:582-590 | released blocks end zeroed and no live key leads to one at any time |
| `Reconcile.Maps.RetireStaleBackends` | data-plane/marlind/reconcile.c:514-544 | exactly the unwanted backends go, after no reachable row names them |
| `Reconcile.Maps.WriteUnion` | data-plane/marlind/reconcile.c:670-674 | the first configuration write carries the old and the new bits, and hides no rule |
| `Reconcile.NarrowCoversExactly` | data-plane/marlind/reconcile.c:198-332 | after narrowing, no rule is hidden exactly when no rule of a list that became empty was missed by the listing |
| `Reconcile.TriesConvergeExactly` | data-plane/marlind/reconcile.c:198-313 | the tries end as configured exactly when every rule that had to go was listed |
| `Reconcile.CutListingHides` | data-plane/marlind/reconcile.c:212-219 | a start and a configuration a run can be given, and a listing cut short on a list that becomes empty: the old rule survives with its bit cleared |
| `Reconcile.RoomCanBeMissing` | data-plane/marlind/reconcile.c:221-230 | a start and a configuration a run can be given, whose lists each fit a trie, without room to go from one to the other |
| `Reconcile.RetryHasNoRoom` | data-plane/marlind/reconcile.c:221-230 | the state a run gives up in for want of room leaves the next attempt without room as well |
| `Reconcile.RunFinishes` | data-plane/marlind/reconcile.c:647-715 | the last write keeps what the run has achieved: the live map, tables, backends, released blocks |
| `Reconcile.Maps.Apply` | data-plane/marlind/reconcile.c:647-715 | writes nothing without a plan; the recorded states lead from the start to the state left, each by one allowed operation, and are all sound, also when a later operation fails; success means live map, tables, backends, released blocks and list bits are as configured, failing operations or not, and the tries hold the new rules and exactly the old ones not listed; the maps then serve the configuration as spelled out over its VIPs, members and backends (`Reconcile.FinishedServes`); when no operation fails, it succeeds exactly on a valid start with room for old and new rules, and the tries hold exactly the configured rules; a matching map keeps its numbers and releases nothing |
| `Reconcile.FailedSafe` | data-plane/marlind/reconcile.c:647-715 | a run that gives up does so in a sound state that hides no rule |
| `Reconcile.VerdictHolds` | data-plane/marlind/reconcile.c:670-714 | in every sound state a source with equal verdicts under old and new lists gets that verdict |
| `Reconcile.ArrivedIsSettled` | data-plane/marlind/reconcile.c:647-715 | where a finished run arrives, the same configuration finds a matching map, so a second run moves nothing |
| `Reconcile.SoundIsRestartable` | data-plane/marlind/reconcile.c:647-715 | every state a run can leave behind, finished or not, is a valid start for the next run |
| `RateLimit.SpendExact` | data-plane/bpf/ratelimit.c:23-52 | no step of the 64-bit arithmetic overflows; a spend is refused exactly below one token and otherwise takes exactly one |
| `RateLimit.StepInv` | data-plane/bpf/ratelimit.c:103-128 | every step of every CPU keeps the potential, the log and the retry accounts |
| `RateLimit.StepHonest` | data-plane/bpf/ratelimit.c:103-128 | every step keeps the account of arrivals, spends, refusals and fail-open admissions, and of what each busy CPU has read and lost |
| `RateLimit.RefusedOnlyWhenEmpty` | data-plane/bpf/ratelimit.c:103-128 | in any execution every refusal saw a word the bucket held while the packet was under way, at a time while it was, with less than one token available |
| `RateLimit.FailOpenLostEverySwap` | data-plane/bpf/ratelimit.c:106-128 | an admission without a token has lost exactly as many swaps as there are tries, each to a later write of the bucket, all while the packet was under way |
| `RateLimit.EveryPacketAnswered` | data-plane/bpf/ratelimit.c:103-128 | for every CPU at any time, arrivals are spends plus refusals plus fail-open admissions, plus the packet it is working on |
| `RateLimit.SpendsBounded` | data-plane/bpf/ratelimit.c:103-128 | for any CPUs and interleaving, 256 * spends + tokens <= initial tokens + rate * elapsed ticks |
| `RateLimit.ResyncUnreachable` | data-plane/bpf/ratelimit.c:103-125 | no interleaving takes the resync branch, because the clock is sampled after every read |
| `RateLimit.WordsNeverRecur` | data-plane/bpf/ratelimit.c:103-125 | the bucket never holds the same word twice and its stamp never goes back |
| `RateLimit.SwapMeansUntouched` | data-plane/bpf/ratelimit.c:114-118 | a successful swap means no CPU wrote in between: ABA cannot occur |
| `RateLimit.ExhaustedPerCpu` | data-plane/bpf/ratelimit.c:106-128 | each exhausted admission of a CPU cost that many spends by other CPUs |
| `RateLimit.ExhaustedAmortised` | data-plane/bpf/ratelimit.c:106-128 | retries * exhausted <= (CPUs - 1) * spends |
| `RateLimit.AdmissionsBounded` | data-plane/bpf/ratelimit.c:103-128 | everything admitted stays within a factor of the rate that depends only on CPUs and retries |
| `RateLimit.ScaledExactly` | data-plane/include/marlind/rl_scale.h:22-30 | the scaled refill is the configured rate to within one unit per tick from below, the scaled burst exactly the configured one |
| `RateLimit.ConfiguredRate` | data-plane/include/marlind/rl_scale.h:22-30 | 953 * (spends - burst packets) <= tokens per second * elapsed ticks |
| `Parser.ChainOf` | data-plane/bpf/parser.c:100-164 | the unbounded chain stops only with a drop, and never forgets that a fragmentable part opened with an extension header |
| `Parser.WalkExt6` | data-plane/bpf/parser.c:100-164 | the bounded walk finds what the unbounded chain holds, or reports the limit exactly when the chain needs more headers; it reads in bounds only |
| `Parser.ParseL3` | data-plane/bpf/parser.c:166-208 | the loop over extension headers and the IPv4 header agree with the specification that `Wire` ties to the byte layout |
| `Parser.MarlinCtx.ParseQuic` | data-plane/bpf/parser.c:235-267 | the clamped declared payload, and the flag exactly for a short header inside both frame and payload |
| `Parser.MarlinCtx.ParseIcmp` | data-plane/bpf/parser.c:292-343 | the tuple of the quoted packet, reversed; nothing is written unless the error is admitted |
| `Parser.MarlinCtx.ParseFrame` | data-plane/bpf/parser.c:345-435 | result code and every context field, from any starting context, as the specification that `Wire` ties to the byte layout has them |
| `Affinity.L3Moves` | data-plane/bpf/parser.c:166-208 | the network layer reads the same wherever the packet lies in the frame |
| `Affinity.QuoteSuffices` | data-plane/bpf/parser.c:292-343 | a truncated packet states its flow exactly when it reaches past the ports |
| `Affinity.ForwardTuple` | data-plane/bpf/parser.c:374-435 | a packet that is neither ICMP nor a later fragment is admitted exactly when its headers state a flow within eight extension headers and no fragmentable part opens with one; its tuple is that flow |
| `Affinity.OwnHeaders` | data-plane/bpf/parser.c:374-435 | an admitted tuple not marked as ICMP or as a later fragment always comes from the packet's own headers |
| `Affinity.IcmpTupleIsQuoted` | data-plane/bpf/parser.c:292-343 | an admitted tuple marked as ICMP is that of a packet quoted in the error, reversed |
| `Affinity.ErrorTuple` | data-plane/bpf/parser.c:292-343 | an ICMP error is admitted exactly when its quote states a flow behind at most two extension headers, and gets that flow reversed; otherwise it is refused as unparseable |
| `Affinity.IcmpAffinity` | data-plane/bpf/parser.c:292-435 | an error that quotes any prefix of a flow's reply is admitted exactly when the prefix reaches past the ports behind at most two extension headers, and then has the tuple of the flow's own packets |
| `Affinity.FragmentsRefused` | data-plane/bpf/parser.c:128-152 | when the fragmentable part opens with an extension header, ESP or AH, first and later fragments are all dropped |
| `Affinity.FragmentsAgree` | data-plane/bpf/parser.c:374-422 | admitted fragments of one datagram agree on addresses, family, protocol and transport offset; with ports in the head, one is admitted exactly when the other is |
| `Affinity.FragmentsAgree4` | data-plane/bpf/parser.c:49-60 | the same for IPv4, where later fragments may lack options: ESP and AH are dropped in both, admitted halves agree on all but the ports, halves with whole headers are admitted together |
| `Affinity.FieldsRead6` | data-plane/bpf/parser.c:62-73 | of the offset, reserved and more-fragments fields of a Fragment header: a later fragment exactly with a non-zero offset, a marked first one exactly at offset zero with more to follow |
| `Affinity.FieldsRead4` | data-plane/bpf/parser.c:49-60 | the same of the IPv4 fragment field; reserved bit and don't-fragment play no part |
| `Affinity.ParsedLength` | data-plane/bpf/parser.c:358 | the recorded packet length is the frame's exactly when it fits 16 bits |
| `Affinity.L4OffFits` | data-plane/bpf/parser.c:97-98 | the 16-bit transport offset is the real one for every frame |
| `Wire.ChainOfExts` | data-plane/bpf/parser.c:100-164 | a chain of extension headers of any length, laid out per RFC 8200, leads to the header behind it over exactly as many headers, and is refused at ESP or AH |
| `Wire.ParseOfFrame6` | data-plane/bpf/parser.c:345-435 | an IPv6 frame laid out per RFC 8200 parses to its fields, offsets and flags, with up to eight extension headers, and is refused with more; a UDP datagram gets its declared length, clamped to a byte, and the QUIC flag exactly for a short header within it |
| `Wire.ParseOfFrame4` | data-plane/bpf/parser.c:345-435 | the same for an IPv4 frame laid out per RFC 791 with any options and any fragment field: a later fragment exactly with a non-zero offset and then without ports, a marked first one exactly at offset zero with more to follow |
| `Wire.ParseOfFragment6` | data-plane/bpf/parser.c:128-155 | the same behind a laid-out IPv6 Fragment header, which counts as one of the eight |
| `Wire.Answers6` | data-plane/bpf/parser.c:292-435 | the answer to every upper protocol of a laid-out IPv6 packet, by number: ESP and AH refused, echoes and ICMPv6 messages that are no error passed on, TCP, UDP and SCTP admitted with their ports, the rest passed on |
| `Wire.Answers4` | data-plane/bpf/parser.c:292-435 | the same for IPv4, where later fragments other than ICMP, ESP and AH are admitted |
| `Wire.CutFrame6` | data-plane/bpf/parser.c:100-233 | cut anywhere, a frame is admitted exactly when its ports are still there, and then with its own tuple |
| `Wire.CutFrame4` | data-plane/bpf/parser.c:166-233 | the same for IPv4 |
| `Wire.Error6Quotes` | data-plane/bpf/parser.c:292-313 | an ICMPv6 message of type 1 to 4 laid out on the wire behind any eight extension headers is recognised as an error and its quote found |
| `Wire.Error4Quotes` | data-plane/bpf/parser.c:292-313 | the same for ICMPv4 types 3, 11 and 12, with any options, at fragment offset zero |
| `Wire.WireAffinity6` | data-plane/bpf/parser.c:292-435 | end to end: a client's frame, the reply with its own extension headers and any error quoting n bytes of it; the exact n, and the common tuple |
| `Wire.WireAffinity4` | data-plane/bpf/parser.c:292-435 | the same end to end over IPv4, with any options in every header |
| `LbCore.HashRow` | data-plane/bpf/lb_core.c:238-252 | the row lies inside the block under every hash mode |
| `LbCore.RowDependsExactly` | data-plane/bpf/lb_core.c:238-252 | two packets share a row under every hash exactly when they agree on the tuple, the ports or the source, as the VIP's mode has it |
| `LbCore.FlagsRead` | data-plane/include/marlin/abi/defines.h:64-81 | of a flag word composed of its fields, the mode bits and the connection ID length are read back |
| `LbCore.XorBits` | data-plane/bpf/lb_core.c:218 | the mask is applied bit by bit |
| `LbCore.CidRoundTrip` | data-plane/bpf/lb_core.c:194-224 | decoding yields a backend exactly from the connection IDs the encoder of data-plane/tests/packet/xdp_80_quic.c:78-103 makes for it |
| `LbCore.EncoderIssues` | data-plane/bpf/lb_core.c:189-218 | the encoder's IDs carry, byte for byte, six bits of the hash of their zero-padded entropy and the id under its low sixteen |
| `LbCore.TargetExactly` | data-plane/bpf/lb_core.c:116-320 | the whole decision as a relation over parse, maps and hash: refused, missed, out of range, a fragment, or the backend of the packet's VIP entry; delivery exactly to the upright backend its connection ID names or, when that names none, to the one its row holds, if that is upright |
| `LbCore.QuicFollowsConnection` | data-plane/bpf/lb_core.c:268-320 | a packet whose connection ID an upright backend issued is delivered to that backend, whatever its source address and port and whatever the table holds |
| `LbCore.IcmpFollowsFlow` | data-plane/bpf/lb_core.c:116-320 | an ICMP error about a flow finds the same VIP and, under every hash mode, the same row; its whole outcome is where the tuple leads, and the flow's own outcome unless the flow's packet is steered: its VIP steers and its connection ID names an upright backend |
| `LbCore.FragmentsShareVip` | data-plane/bpf/lb_core.c:116-131 | first and later fragments of either family find the same VIP entry exactly when no entry names the head's port or the any-port entry says the same |
| `LbCore.FragmentsStayTogether` | data-plane/bpf/lb_core.c:157-320 | on one VIP entry fragments are refused together or go to one backend, also when the head looks like QUIC |
| `LbCore.FragmentsOneTarget` | data-plane/bpf/lb_core.c:116-320 | fragments of one datagram end alike whenever the head's port has no entry of its own, or one equal to the any-port entry |
| `Hitless.LookupSteady` | data-plane/bpf/lb_core.c:116-131 | a packet that the same entry, or none, serves before and after a run finds the same in every sound state, even if its two lookups see different states |
| `Hitless.NeverMissedExactly` | data-plane/marlind/reconcile.c:567-580 | a packet finds an entry in every safe state exactly when one of its two keys is live before and configured after; otherwise the state after the deletions misses it |
| `Hitless.LiveKeySelection` | data-plane/bpf/lb_core.c:227-266 | in every sound state a live key leads to the backend its own VIP had or will have at the row, and never to one that is not there |
| `Hitless.HitlessSelection` | data-plane/bpf/lb_core.c:116-266 | a packet that one entry serves before and after a run finds it in every sound state, with its old or new value, and gets the backend its own VIP had or will have at its row, and never one that is not there |
| `Hitless.HitlessTarget` | data-plane/bpf/lb_core.c:116-320 | the outcome of such a packet in every sound state: refused only as a fragment under a port-dependent mode, delivered to the upright backend its connection ID names, or else decided by its own VIP's old or new row, whose backend is there |
| `Hitless.TornVerdict` | data-plane/bpf/acl.c:19-58 | a source with one verdict before and after has it even if configuration and tries are read in different states |
| `Hitless.TornRow` | data-plane/bpf/lb_core.c:227-259 | a packet that reads the VIP in one state and the row in a later one gets its own VIP's row, if it read the new value or the VIP keeps its block |
| `Hitless.TornBackend` | data-plane/bpf/lb_core.c:259-265 | and if it reads the backend later still, the backend is there unless it is no longer wanted |
| `Hitless.KeepsBlockExactly` | data-plane/marlind/vip_alloc.c:180-230 | a key keeps its block exactly when the block goes to no other entry and is not released |
| `Hitless.OldBlockAtEnd` | data-plane/marlind/reconcile.c:582-643 | after a successful run any block holds the table of the entry that has it, and a released one is empty |
| `Hitless.TornRowCanMiss` | data-plane/marlind/reconcile.c:582-643 | two VIPs merged into one block: a packet that read the second one's value before it moved and its row after the release gets no backend |
| `Checksum.CsumWords` | data-plane/include/marlin/csum.h:22-35 | the byte loop adds the big-endian words of the buffer, an odd last byte padded, modulo 2^32 |
| `Checksum.FoldAbsorbs` | data-plane/include/marlin/csum.h:41-46 | two folds bring every 32-bit sum below 2^16 without changing it modulo 65535 or making it zero |
| `Checksum.ByteOrderIndependent` | data-plane/include/marlin/csum.h:48-67 | folding the sum of native words gives the byte swap of folding the big-endian sum, for buffers of any length (section 2(B) of RFC 1071) |
| `Checksum.Ipv4CsumIsRfc1071` | data-plane/include/marlin/csum.h:53-67 | the native-word header checksum equals the big-endian sum with the check field zero, folded |
| `Checksum.ChecksumVerifies` | data-plane/include/marlin/csum.h:53-67 | a header that carries its checksum folds to zero |
| `Encap.IpipEncap` | data-plane/bpf/ipip.c:79-115 | the exact result code; on success the buffer holds the emitted frame over the arriving one, and offsets and length follow; on a drop a whole frame is left as it was |
| `Encap.GueEncap` | data-plane/bpf/gue.c:105-148 | the same for GUE |
| `Encap.VxlanEncap` | data-plane/bpf/vxlan.c:151-208 | the same for VXLAN, whose inner Ethernet header is readdressed where it lies |
| `Encap.VxlanWriteOuter` | data-plane/bpf/vxlan.c:132-149 | inner readdressing and five header stores over one buffer leave the headers side by side and the rest of the frame untouched |
| `Encap.VxlanBuild` | data-plane/bpf/vxlan.c:87-149 | the outer headers with their lengths, ports and checksum, over the arriving frame |
| `Decap.IpipRoundTrip` | data-plane/bpf/ipip.c:67-115 | the receiver gets back the arriving packet and its family exactly when the total length does not wrap; the frame grows by the overhead |
| `Decap.GueRoundTrip` | data-plane/bpf/gue.c:81-148 | the same through UDP and GUE, with both length fields checked against the frame |
| `Decap.VxlanRoundTrip` | data-plane/bpf/vxlan.c:65-208 | the receiver gets the arriving frame on the configured network, readdressed, its packet byte-identical, exactly when the total length does not wrap |
| `Decap.IpipOnWire` | data-plane/bpf/ipip.c:35-77 | Ethernet addresses and type, type of service, length, don't-fragment, TTL, protocol, tunnel source and backend address stand at their places in an IPIP frame |
| `Decap.GueOnWire` | data-plane/bpf/gue.c:39-103 | the same for GUE, with UDP ports, length, absent checksum and the four-byte header |
| `Decap.VxlanOnWire` | data-plane/bpf/vxlan.c:65-149 | the same for VXLAN, with exchanged Ethernet addresses, the network identifier in its three bytes and the readdressed frame |
| `Decap.ParsedRoundTrip` | data-plane/bpf/parser.c:358-380 | a parsed frame that fits 16 bits comes out of all three tunnels with the protocol its own Ethernet type stands for, exactly when the outer length does not wrap |

## Left out

- The clean-up of `vip_alloc` after a failed claim or ordering has no counterpart: neither fails on accepted input.
- The planner compares keys with `==` where the source compares fields; `Types.KeyEqIsMapEquality` is why.
- `VIP_ALLOC_NUM_UNSET` is -1 here; the source's value is outside the range of block numbers as well.
- `tx_ports`, interface lookups and the derivation of `max_frame` appear in a run only as operations that may fail.
- The `backends` map is keyed by id; the source passes the address of a 16-bit id where the map key has 32 bits.
- Reading the old list bits is taken not to fail; the reserved bits of `acl_lists` are not modelled.
- "Every unreferenced block is zero" is not claimed: only blocks the baseline refers to are released.
- SipHash, the entropy hash and `log` are arbitrary functions; minimal disruption across a switch between the two scoring paths is not claimed.
- Rate limiting starts from a resident bucket and a clock below its 32-bit wrap; the miss path, LRU eviction and concurrent first inserts may grant an extra burst.
- The retry loop of the rate limiter is a state machine over its steps rather than a loop, because other CPUs act between them.
- LbCore.IcmpFollowsFlow: the ACL and the rate limit, which read the same tuple, are not part of the outcome compared.
- Packet fields are numbers in wire order; an IPv4 address is the first of four words. Statistics counters are not modelled.
- The results on a whole packet decision take all maps from one state; `Hitless` says what holds when the reads of the ACL, of a VIP, of its row and of its backend see different states. Selection by connection ID across states is not covered.
- Next-hop resolution, `bpf_fib_lookup`, redirects and MAC assignment (`nexthop.c`).
- TOML parsing, file permissions, signals, netlink, pinning, attaching and preflight.
- The checks of `conf_check.c` other than VIP keys, dead rules and host bits.
- The tries are sets of rules; that rules arrive with clear host bits, as `check_acl_list` demands, is what makes a set right (`Acl.TrieIdentity`).
