# A verified model of a Dash-derived node's core data structures

This project states and proves, in Dafny, what nine components of the node are for: the layered
cache of unspent outputs, the address manager, 256-bit arithmetic with the multi-algorithm block
proof, the block tree with its skip list, the script-check queue, the signature cache and the
rolling Bloom filter, Base58 text, compact blocks, and governance votes.

`dafny verify dfyconfig.toml` checks everything. Objects whose methods update fields are classes
with the same fields, loops over buffers are loops over arrays, and each is proved against a
specification on values; what the program promises is then proved about that specification.

| files | component | main results |
|---|---|---|
| CoinsSpec, Coins | unspent-output caches | a stack of caches of any depth, flushed anywhere, answers like one flat map (`Coins.CoinsViewCache.Run`) |
| AddrManSpec, AddrMan, AddrManDisk | address manager | every run keeps six redundant structures consistent; saving and loading loses nothing (`AddrMan.RunSaveLoad`) |
| ArithSpec, ArithUint, ArithUintOps, Compact | multi-word integers, compact targets | limb loops compute exact integer results; decoding an encoded number rounds it down |
| NthRoot, BlockProof | n-th root, block proof | the product of roots never wraps, and harder targets never mean less work |
| SkipList, Chain | block tree, active chain | skip pointers agree with walking, in at most 110 steps from any of the first 2^18 blocks; whatever blocks and tips come, the chain is the path of the tip |
| CheckQueueSpec, CheckQueue | check queue | safety over every interleaving of a master and any number of workers, and a bound on the steps until the master returns |
| CuckooSpec, Cuckoo | signature cache | an insert finds a free candidate slot if there is one, and otherwise loses at most one element, at the end of an exact chain of displacements; the current epoch stays bounded |
| WordBits, RollingBloom | rolling Bloom filter | it equals a plain Bloom filter over exactly the last two generations and the current one |
| Base58Spec, Base58 | Base58 | decoding and encoding are inverse, and the fixed-ratio buffers always suffice |
| BlockEncodingsSpec, BlockEncodings | compact blocks (BIP 152) | a block is rebuilt exactly from any compact form of it, without collisions |
| GovernanceSpec, Governance | governance votes | the recorded votes do not depend on order or repetition, as long as no vote comes only too early; what is in the vote file is characterised exactly |

## Where the program and its description differ

The model follows the code in each case.

- Flushing a cache that never looked up its best block writes a null hash into a parent cache, so the
  stack then reports the best block of a lower layer (`Coins.FlushForgetsBestBlock`; exactly when:
  `Coins.CoinsViewCache.Flush`); after a look-up nothing is lost (`Coins.CoinsViewCache.LookUpAndFlush`).
- `AddCoin` without `possible_overwrite` on an output that has an unspent coin is not always refused
  (`Coins.AddOverDatabase`), and spending then brings the old coin back (`CoinsSpec.AddOverBase`); the layer
  stays sound exactly when the output is absent from the view (`CoinsSpec.AddSoundExactlyWhenAbsent`).
- `SpendCoin` reports success for an output that is spent already when its entry is still there
  (`Coins.SpendTwice`; exactly when: `Coins.CoinsViewCache.SpendCoin`).
- `Add_` reports an address as new even when it finds no slot for it and drops it at once (`AddrMan.AddDropped`;
  exactly when: `AddrMan.CAddrMan.Add`).
- Loading the address manager does not normalise ports, so without port discrimination the loaded tables are
  consistent exactly when every port is zero (`AddrManDisk.RestoredConsistentExactlyWhen`,
  `AddrManDisk.LoadingForgetsPorts`).
- `x *= x` on one object clears it (`ArithUintOps.MulAssign`).
- The comment on the cuckoo cache says that the first displaced element is the one in the first candidate
  slot; the code displaces the second (`Cuckoo.FirstDisplaced`). It also says that the element just put in is not
  moved, which fails when the next candidate is the same slot again (`Cuckoo.MovedAtOnce`; exactly when:
  `Cuckoo.Cache.StaysPutExactlyWhen`). The cache's 45 percent are computed in 32 bits, which is exact for tables of up to 2^26 slots and no larger (`Cuckoo.EpochSizeExactlyWhen`).
- The last shift of the block proof can lose bits, down to a proof of zero for valid targets
  (`BlockProof.ProofVanishes`): it is exact exactly when the mean target is at least 128
  (`BlockProof.ScalingExactlyWhen`).
- Compact-block slot numbers are kept in 16 bits, which is enough exactly when a block has at most 2^16
  transactions (`BlockEncodingsSpec.NumbersFitExactlyWhen`); beyond, a transaction can be put into the wrong slot
  (`BlockEncodings.WrongSlot`). With 2^16 prefilled transactions and a short id the scan for an empty slot
  never ends (`BlockEncodings.EndlessScan`; exactly when: `BlockEncodingsSpec.ScanEndsExactlyWhen`).
- Nodes that get the same governance votes need not record the same: a vote dated more than an hour ahead is
  refused, and is lost if it does not come again (`GovernanceSpec.EarlyArrivalMatters`; exactly when:
  `GovernanceSpec.RecordIdealExactlyWhen`). With rate checks on the order matters, too
  (`GovernanceSpec.RateChecksMatter`; exactly when: `GovernanceSpec.RateChecksExactlyWhen`).
  The vote file depends on the order in any case (`GovernanceSpec.FileDependsOnOrder`; exactly how:
  `GovernanceSpec.FileExactly`).
- The skip heights do not make the search for an ancestor logarithmic: from height 2^n - 1 to height 2 it takes
  about n^2 / 4 steps (`SkipList.StepsExact`, `SkipList.NotLogarithmic`). The bound of 110 steps that the source gives for 2^18 blocks is
  right (`SkipList.AtMost110`).

## Model

| member | source | states |
|---|---|---|
| CoinsSpec.AddSoundExactlyWhenAbsent | src/coins.cpp:68-87 | adding without overwrite neither throws nor breaks the flags if and only if the view has no unspent coin there |
| CoinsSpec.AddOverBase | src/coins.cpp:68-87 | an input where nothing is refused although the view has a coin; spending the new coin then shows the old one again |
| CoinsSpec.AddRefines | src/coins.cpp:68-87 | a permitted add never throws, keeps DIRTY and FRESH sound, and updates the flat view at that outpoint only (not at all for an unspendable coin) |
| CoinsSpec.FetchRefines | src/coins.cpp:42-57 | copying a coin up from below keeps the flags sound and the view unchanged |
| CoinsSpec.SpendRefines | src/coins.cpp:99-113 | spending removes exactly that outpoint from the view, whether the entry is erased or kept as spent |
| CoinsSpec.UncacheRefines | src/coins.cpp:209-216 | dropping an unmodified entry never changes the view |
| CoinsSpec.MergeRefines | src/coins.cpp:146-200 | writing a sound child into a sound parent never hits the misapplied-FRESH error, keeps the parent sound over its own base, and gives the parent the child's view |
| CoinsSpec.MergedEntryOk | src/coins.cpp:148-193 | each merged entry has flags that are true of the view below the parent |
| CoinsSpec.WriteBackRefines | src/txdb.cpp:77-100 | writing only the dirty entries into the database gives it the view the cache presented |
| CoinsSpec.UsageUpdate | src/coins.cpp:42-113 | the memory total changes by the new coin less the old one when an entry is replaced |
| Coins.CoinsDB.BatchWrite | src/txdb.cpp:77-100 | dirty entries are erased or written, others ignored, in any order; a null best block is not written |
| Coins.CoinsViewCache.OverDatabase | src/coins.cpp:36 | a new cache over a database shows the database |
| Coins.CoinsViewCache.OverCache | src/coins.cpp:36 | a new cache over a cache shows what that one shows |
| Coins.CoinsViewCache.FetchCoin | src/coins.cpp:42-57 | finds an entry here or below, caching it in every layer on the way, and changes no view |
| Coins.CoinsViewCache.GetCoin | src/coins.cpp:59-66 | answers what the flat view holds, and changes no view |
| Coins.CoinsViewCache.AddCoin | src/coins.cpp:68-87 | throws exactly on an unspent existing coin without overwrite; a coin whose script starts with 0x6a or exceeds 10000 bytes changes nothing; otherwise adds to the view, with the memory total exact; the throwing path leaves the total short by that coin |
| Coins.CoinsViewCache.SpendCoin | src/coins.cpp:99-113 | removes the outpoint from the view and hands out the coin that was shown; reports success if and only if there was an entry here or a coin below |
| Coins.CoinsViewCache.Uncache | src/coins.cpp:209-216 | keeps every view |
| Coins.CoinsViewCache.BatchWrite | src/coins.cpp:146-200 | throws exactly when some FRESH entry meets an unspent parent coin; otherwise merges all entries whatever the iteration order; after a throw each entry is as before or merged, the best block is as before, and the memory total is exact |
| Coins.CoinsViewCache.WriteEntry | src/coins.cpp:150-192 | the same for one dirty entry, with the memory total |
| Coins.CoinsViewCache.Flush | src/coins.cpp:202-207 | in a stack of any depth: never throws, the parent then shows what the child showed, the emptied child still shows it, and the best block is kept if and only if no null hash overwrites a differing best block of the parent cache |
| Coins.CoinsViewCache.GetBestBlock | src/coins.cpp:136-140 | answers the nearest non-null best block and remembers it in this cache; no view changes |
| Coins.CoinsViewCache.NothingToLose | src/coins.cpp:136-207 | a cache that holds the best block it presents loses none by a flush |
| Coins.CoinsViewCache.LookUpAndFlush | src/coins.cpp:136-207 | in a stack of any depth, looking up the best block and flushing leaves what the stack reports, and the parent reports it too |
| Coins.CoinsViewCache.SetBestBlock | src/coins.cpp:142-144 | changes the best block only |
| Coins.CoinsViewCache.FlushBelow | src/coins.cpp:202-207 | flushing any cache of the stack leaves the top view as it was, and the best block reported once the top has looked it up |
| Coins.CoinsViewCache.Perform | src/coins.cpp:42-216 | each operation has its flat-map effect and its flat-map answer |
| Coins.CoinsViewCache.Run | src/coins.cpp:42-216 | every legal run on a stack of any depth has the state and the answers of one flat map of unspent coins, and keeps the best block reported if it was looked up before |
| Coins.SpendTwice | src/coins.cpp:99-113 | a cache over a database with one coin: both spends report success, nothing is shown in between, and the one entry left is the record of the first spend |
| Coins.AddOverDatabase | src/coins.cpp:68-87 | a stack on which an add over an existing coin is not refused and leaves unsound flags |
| Coins.FlushForgetsBestBlock | src/coins.cpp:136-207 | a stack of two caches that reports the middle best block before a flush, and both caches the database's after it |
| AddrManSpec.CreateKeeps | src/addrman.cpp:86-101 | a new entry gets an unused id and is indexed both ways, awaiting its first reference |
| AddrManSpec.SwapKeeps | src/addrman.cpp:103-121 | swapping two places keeps the random order and the stored positions inverse |
| AddrManSpec.DeleteKeeps | src/addrman.cpp:123-140 | deleting an unreferenced entry by swap-and-pop keeps all indexes inverse and the counts exact |
| AddrManSpec.UnreferenceKeeps | src/addrman.cpp:142-155 | emptying a new slot keeps reference counts equal to occurrences; an entry that loses its last reference is due for deletion |
| AddrManSpec.ReferenceKeeps | src/addrman.cpp:317-320 | filling a free new slot keeps counts between 1 and 8 and every occupant in its computed slot |
| AddrManSpec.EvictKeeps | src/addrman.cpp:176-185 | taking an entry out of the tried table keeps the tables exact |
| AddrManSpec.PromoteKeeps | src/addrman.cpp:198-202 | an unreferenced entry put in its tried slot keeps the tables exact |
| AddrManSpec.AlikeKeeps | src/addrman.cpp:330-350 | updates that leave address, references and table membership alone keep the invariant |
| AddrManSpec.KeyKnown | src/addrman.cpp:68-84 | an address key is known exactly as long as its entry exists |
| AddrMan.ProbeReaches | src/addrman.cpp:237-244 | probing all buckets from any start reaches every bucket |
| AddrMan.TerribleExactlyWhen | src/addrman.cpp:33-51 | an entry tried in the last minute is given out; any other is terrible if its time is missing, over ten minutes ahead or over thirty days old, and otherwise exactly after three attempts without a success or ten with none in a week |
| AddrMan.CAddrMan.constructor | src/addrman.h:475-479 | a new manager is empty and consistent |
| AddrMan.CAddrMan.Find | src/addrman.cpp:68-84 | returns the id under the normalised address, or none exactly when there is none |
| AddrMan.CAddrMan.Create | src/addrman.cpp:86-101 | adds exactly one entry, key and random place |
| AddrMan.CAddrMan.SwapRandom | src/addrman.cpp:103-121 | swaps two places and their stored positions |
| AddrMan.CAddrMan.Delete | src/addrman.cpp:123-140 | removes exactly that entry and its key; its asserts hold |
| AddrMan.CAddrMan.ClearNew | src/addrman.cpp:142-155 | empties exactly that slot; its occupant loses one reference, or is deleted if it had no other, and no other entry changes but its place |
| AddrMan.CAddrMan.RemoveFromBucket | src/addrman.cpp:161-165 | drops exactly the references of the entry in one bucket, with its reference count |
| AddrMan.CAddrMan.RemoveFromNew | src/addrman.cpp:159-169 | the new table without the references of the entry, whose count is then zero, as the assert demands |
| AddrMan.CAddrMan.EvictTried | src/addrman.cpp:176-197 | the occupant of the tried slot gets exactly one reference, in the slot of its own source, whose occupant loses one; no other entry changes; the assert on the cleared slot holds |
| AddrMan.CAddrMan.MakeTried | src/addrman.cpp:157-203 | the whole effect: the entry leaves every new bucket for its tried slot with count zero, an entry found there returns to the new table, the occupant it meets there loses one reference, nothing else changes, and all asserts hold |
| AddrMan.CAddrMan.FindNewBucket | src/addrman.cpp:234-249 | an entry that is not tried is always found in some bucket, so the "no bucket" exit is unreachable |
| AddrMan.CAddrMan.Good | src/addrman.cpp:205-255 | a known address ends in the tried table with its last success and try set, no attempts and its time, services and source unchanged; what else changes is exactly what moving it there does; an unknown one changes only the time of the last success |
| AddrMan.CAddrMan.Refresh | src/addrman.cpp:271-298 | exactly how a repeated announcement changes the entry, and that another reference is tried for if and only if it is wanted and 0 is drawn out of 2^nRefCount |
| AddrMan.CAddrMan.Place | src/addrman.cpp:306-326 | exactly when the slot is taken, when the entry survives, what its count becomes, and that only the occupant of the slot pays |
| AddrMan.CAddrMan.AddUnknown | src/addrman.cpp:299-326 | the new entry is kept if and only if its slot is free or its occupant can be displaced; if kept, its content and slot; only the occupant of the slot changes |
| AddrMan.CAddrMan.AddKnown | src/addrman.cpp:271-326 | the refreshed entry, when it gets another slot, and that no other entry but the occupant of that slot changes |
| AddrMan.CAddrMan.Add | src/addrman.cpp:257-328 | true exactly for a routable address not known before; what is stored, refreshed or referenced, and in which slot; at most one other address is lost, and none when the new one is dropped |
| AddrMan.CAddrMan.Attempt | src/addrman.cpp:330-350 | exactly how the attempt statistics change, and that nothing else does |
| AddrMan.CAddrMan.Connected | src/addrman.cpp:498-516 | the time moves only after twenty minutes, and nothing else changes |
| AddrMan.CAddrMan.SetServices | src/addrman.cpp:518-534 | only the services of that address change |
| AddrMan.CAddrMan.GetAddr | src/addrman.cpp:477-496 | at most 23 percent and 2500 entries, each as in the table, none terrible, none twice, and fewer only if no other is fit; only the random order changes |
| AddrMan.CAddrMan.Perform | src/addrman.cpp:205-534 | each operation keeps the invariant and has its effect on the tables |
| AddrMan.CAddrMan.Run | src/addrman.cpp:68-534 | every run, with every random choice, performs each operation with its effect on the tables and keeps: inverse indexes, bijective keys, counts equal to occurrences (1 to 8, or 0 if tried), computed slots, exact totals |
| AddrMan.AddDropped | src/addrman.cpp:257-328 | two addresses with one slot: the second is reported as new and not stored |
| AddrManDisk.FullOrderOk | src/addrman.h:312-331 | writing finds exactly nNew referenced and nTried tried entries, so neither assert fails, and lists each entry once |
| AddrManDisk.SizesAgree | src/addrman.cpp:400-414 | the random order, the entries and nNew + nTried have the same size |
| AddrManDisk.CountsFit | src/addrman.h:369-375 | the totals never exceed the limits that loading enforces |
| AddrManDisk.NoneLost | src/addrman.h:397-416 | no two tried entries collide on loading |
| AddrManDisk.RoundTrip | src/addrman.h:299-452 | loading what was saved rebuilds both tables, counts, totals and orders up to renaming ids, and every entry field by field: address, time, services, source, last success and attempts as before, last try and last counted attempt zero |
| AddrManDisk.RestoredConsistentExactlyWhen | src/addrman.h:377-415 | the loaded tables satisfy the whole invariant if and only if ports discriminate or all ports are zero |
| AddrManDisk.LoadingForgetsPorts | src/addrman.h:381 | a table that is consistent before saving and not after loading |
| AddrMan.CAddrMan.Serialize | src/addrman.h:299-346 | writes every entry with references, then every tried one, field by field, and every bucket as indexes into the former |
| AddrMan.CAddrMan.ReadNews | src/addrman.h:377-395 | rebuilds the entries of the new table |
| AddrMan.CAddrMan.ReadTrieds | src/addrman.h:397-416 | rebuilds the tried table, counting collisions |
| AddrMan.CAddrMan.ReadBuckets | src/addrman.h:418-434 | rebuilds the references |
| AddrMan.CAddrMan.CountOrphans | src/addrman.h:436-446 | counts the entries without a reference |
| AddrMan.CAddrMan.Unserialize | src/addrman.h:349-452 | on what a consistent manager saved: nothing refused, lost or pruned, the tables restored, and every entry field by field; consistent exactly when ports discriminate or are zero |
| AddrMan.RunSaveLoad | src/addrman.h:299-452 | construction, any run with its trace, saving, loading: nothing lost, and with port discrimination the loaded manager is consistent |
| ArithUint.AddAssign | src/arith_uint256.h:135-145 | the sum modulo the width, also of a number with itself |
| ArithUint.Complement | src/arith_uint256.h:69-75 | the complement |
| ArithUint.Increment | src/arith_uint256.h:173-180 | one more, modulo the width |
| ArithUint.Negate | src/arith_uint256.h:77-84 | the negative modulo the width |
| ArithUint.SubAssign | src/arith_uint256.h:147-151 | the difference, exact when it is not negative and wrapped otherwise, also of a number with itself |
| ArithUint.CompareTo | src/arith_uint256.cpp:110-119 | the sign of the comparison of the two numbers |
| ArithUint.ShlAssign | src/arith_uint256.cpp:22-36 | multiplication by a power of two modulo the width, for every shift including those past the width |
| ArithUint.ShrAssign | src/arith_uint256.cpp:39-53 | floor division by a power of two, for every shift |
| ArithUintOps.Bits | src/arith_uint256.cpp:172-184 | the unique bit length |
| ArithUintOps.MulRow | src/arith_uint256.cpp:70-78 | one row of the product; what is dropped is a multiple of the width, and no column exceeds 64 bits |
| ArithUintOps.MulAssign | src/arith_uint256.cpp:68-81 | the product modulo the width with another object, and zero with itself |
| ArithUintOps.SetBit | src/arith_uint256.cpp:100 | setting the quotient bit adds it |
| ArithUintOps.DivAssign | src/arith_uint256.cpp:84-107 | quotient and remainder for every nonzero divisor, itself included; division by zero is refused with the number cleared |
| NthRoot.HeadFits | src/arith_uint256.cpp:187-210 | the shifted number fits in 64 bits |
| NthRoot.ShiftsLeast | src/arith_uint256.cpp:190-191 | the shift computed is the least that leaves at most n * (64 / n) bits |
| NthRoot.LeastShiftUnique | src/arith_uint256.cpp:190-191 | there is only one least shift |
| NthRoot.Power64 | src/arith_uint256.cpp:187-210 | the 64-bit power loop never wraps |
| NthRoot.SearchRoot | src/arith_uint256.cpp:187-210 | the bit-by-bit search finds the floor of the n-th root |
| NthRoot.RootOfWhole | src/arith_uint256.cpp:187-210 | a root of the leading bits, shifted back, is the root of the whole to the shifted precision |
| NthRoot.ApproxNthRoot | src/arith_uint256.cpp:187-210 | r^n <= x < (r + 2^s)^n with r a multiple of 2^s, for every x and n in 2..63, where s is the least shift that leaves at most n * (64 / n) of the bits of x |
| NthRoot.RootUnique | src/arith_uint256.cpp:187-210 | there is only one such number |
| NthRoot.RootMono | src/arith_uint256.cpp:187-210 | the result is monotone, also where the shift changes |
| NthRoot.RootPositive | src/arith_uint256.cpp:187-210 | a nonzero number has a nonzero result |
| NthRoot.GetLow64 | src/arith_uint256.h:247-252 | the number modulo 2^64 |
| NthRoot.FromUint64 | src/arith_uint256.h:51-58 | the number of a 64-bit value |
| Compact.AssignUint64 | src/arith_uint256.h:88-95 | assignment from a 64-bit value |
| Compact.OverflowExact | src/arith_uint256.cpp:244-247 | the overflow test is true if and only if the mantissa times 256^(exponent-3) is at least 2^256 |
| Compact.SetCompact | src/arith_uint256.cpp:231-249 | the decoded number modulo 2^256, with both flags exact |
| Compact.GetCompact | src/arith_uint256.cpp:251-272 | the encoding of the number, with the sign bit set if and only if it is asked for and the mantissa is not zero |
| Compact.CompactRoundTrip | src/arith_uint256.cpp:231-272 | decoding an encoded number rounds it down to a multiple of 256^max(0, k-3), with both flags false |
| Compact.ReencodeStable | src/arith_uint256.cpp:231-272 | a code of a number is a code of what it decodes to |
| Compact.EncodingUnique | src/arith_uint256.cpp:251-272 | a number has only one code |
| Compact.Recode | src/arith_uint256.cpp:231-272 | encoding, decoding and encoding again: the same code, the number rounded down, no overflow, and the sign kept |
| BlockProof.TargetRoom | src/chain.cpp:121-163 | a valid decoded target leaves room for adding one |
| BlockProof.ProductPower | src/chain.cpp:121-163 | the n-th power of a product of roots is bounded by the powers of the targets |
| BlockProof.ProductFits | src/chain.cpp:121-163 | no running product of roots exceeds 256 bits, nor does adding one |
| BlockProof.OneMore | src/chain.cpp:158 | dividing the complement and adding one is dividing 2^256 |
| BlockProof.Reciprocal | src/chain.cpp:158 | floor(2^256 / (average + 1)), with nothing wrapping |
| BlockProof.GetBlockProof | src/chain.cpp:121-163 | zero for an invalid target; otherwise the reciprocal of the product of the roots, each to the precision of the least shift, scaled by 128 modulo 2^256 |
| BlockProof.HarderTargetsMoreWork | src/chain.cpp:121-163 | raising any target never raises the proof before scaling |
| BlockProof.ScalingExactlyWhen | src/chain.cpp:159-160 | the final scaling is exact if and only if the average is at least 128 |
| BlockProof.CompareProofs | src/chain.cpp:121-163 | of two sets of valid targets the easier never gets the greater proof, as returned, when the mean of the harder is at least 128 |
| BlockProof.ProofVanishes | src/chain.cpp:121-163 | valid targets of 1 for every algorithm: the scaled reciprocal of the product of their roots, which is what is returned, is zero modulo 2^256 |
| SkipList.LowestOne | src/chain.cpp:71 | clearing the lowest one bit subtracts that bit |
| SkipList.SkipHeightBelow | src/chain.cpp:74-82 | skip heights are below the height |
| SkipList.OddWalk | src/chain.cpp:74-108 | from an odd height above an odd multiple of 2^b the walk clears two bits at a time; the cost is exact away from the bottom |
| SkipList.FromBelow | src/chain.cpp:74-108 | the steps needed from just below a multiple of 2^n |
| SkipList.StepsBound | src/chain.cpp:84-108 | from every height below 2^n, at most max(n - 3, (n - 2) / 2 + 4) + (n - 2)^2 / 4 + 2 n - 5 steps |
| SkipList.StepsExact | src/chain.cpp:84-108 | from 2^n - 1 to 2 there are exactly (n - 1)^2 / 4 + 2 n - 3 steps |
| SkipList.NotLogarithmic | src/chain.cpp:84-108 | for every factor c some walk takes more than c times the logarithm of its height |
| SkipList.AtMost110 | src/chain.cpp:78-81 | the documented bound: at most 110 steps from heights up to 2^18 |
| Chain.BlockIndex.GetAncestor | src/chain.cpp:84-108 | on every tree built by BuildSkip: terminates and equals walking back one by one; null exactly out of range; takes exactly the steps of the height model |
| Chain.BlockIndex.BuildSkip | src/chain.cpp:115-119 | the tree extended by the block satisfies the skip invariant again |
| Chain.BlockIndex.AncestorOfAncestor | src/chain.h:354-355 | walking is transitive |
| Chain.CChain.SetTip | src/chain.cpp:12-22 | the chain is exactly the path of the new tip although the loop stops where the old chain is met |
| Chain.CChain.FindFork | src/chain.cpp:52-61 | the highest block shared with the chain, or null exactly when none is shared |
| Chain.CChain.GetLocator | src/chain.cpp:24-50 | exactly the ancestors of the given block, or of the last block of the chain, at distances 0 to 11 and then doubling, strictly descending to height 0, with at most 12 + log2 entries |
| Chain.CChain.PathOf | src/chain.h:451-466 | the chain holds the ancestors of every block it contains |
| Chain.NextNode | src/chain.cpp:24-50 | each further entry keeps the descent on schedule, whether found by index or by ancestor |
| Chain.Run | src/chain.cpp:12-119 | after any interleaving of new blocks and new tips the blocks are those described, on the predecessors known then, the skip pointers are right, and the chain is exactly the path of the block that the last choice of a tip named |
| CheckQueueSpec.AddKeeps | src/checkqueue.h:149-161 | adding checks keeps the invariant |
| CheckQueueSpec.ExecuteKeeps | src/checkqueue.h:121-125 | executing a check outside the mutex keeps the invariant |
| CheckQueueSpec.LockReturns | src/checkqueue.h:91-100 | when the master returns, the result is true if and only if all checks added since the last return pass, and all of them are done |
| CheckQueueSpec.LockWaits | src/checkqueue.h:101-103 | waiting keeps the invariant |
| CheckQueueSpec.LockWorks | src/checkqueue.h:105-119 | taking a batch keeps the invariant: no check is taken twice |
| CheckQueueSpec.StepKeeps | src/checkqueue.h:69-161 | every step of every thread, spurious wake-ups included, keeps the invariant |
| CheckQueueSpec.RunKeeps | src/checkqueue.h:69-161 | it holds after every interleaving |
| CheckQueueSpec.Safety | src/checkqueue.h:69-161 | in every reachable state nTodo is queued plus in flight, added checks are queued, in flight or finished exactly once, and every logged result is exact |
| CheckQueueSpec.MasterWaitsForWork | src/checkqueue.h:80-104 | an unsignalled waiting master has a worker with a batch |
| CheckQueueSpec.LastBatchWakes | src/checkqueue.h:80-85 | the worker that finishes the last check signals the master |
| CheckQueueSpec.NextMove | src/checkqueue.h:69-127 | before the master has returned some step is always possible |
| CheckQueueSpec.StepAdvances | src/checkqueue.h:69-127 | while the master waits, every step of every thread, short of a spurious wake-up, lowers a measure or lets it return |
| CheckQueueSpec.WaitIsBounded | src/checkqueue.h:69-146 | every run without spurious wake-ups has the master back within that measure |
| CheckQueueSpec.NoDeadlock | src/checkqueue.h:69-127 | a run that cannot go on has the master back |
| CheckQueueSpec.WaitCanReturn | src/checkqueue.h:143-146 | from every reachable state with the master inside, some run lets it return once |
| CheckQueue.CCheckQueue.Add | src/checkqueue.h:149-161 | the master's critical section appends the checks and counts them |
| CheckQueue.CCheckQueue.Continue | src/checkqueue.h:90-120 | the critical section from the queue test on is the protocol's |
| CheckQueue.CCheckQueue.Turn | src/checkqueue.h:78-120 | so is a turn that hands in a batch or starts the loop, and it notifies exactly when the protocol does |
| CheckQueue.CCheckQueue.Resume | src/checkqueue.h:101-120 | so is a turn after a wait |
| CheckQueue.ExecuteBatch | src/checkqueue.h:121-125 | true exactly when nothing failed before and all checks of the batch pass |
| Cuckoo.Cache.constructor | src/cuckoocache.h:315-329 | an empty table of 2^depth slots, all collectable and of no epoch, with its epoch size, computed in 32 bits, and counter |
| Cuckoo.EpochSizeExactlyWhen | src/cuckoocache.h:324-325 | the epoch size is 45 percent of the slots if and only if there are at most 2^26 |
| Cuckoo.Cache.CountRecent | src/cuckoocache.h:272-275 | the live entries of the current epoch |
| Cuckoo.Cache.Age | src/cuckoocache.h:280-286 | the old epoch becomes collectable, the current one becomes old |
| Cuckoo.Cache.EpochCheck | src/cuckoocache.h:264-296 | exactly when the epochs age and what the counter becomes; room is left for one more entry within the allowance |
| Cuckoo.Cache.Insert | src/cuckoocache.h:368-416 | an element with a free candidate slot is stored and nothing is lost; something is lost only after depth_limit displacements, each by an element with eight live candidates; of the element and all those live after the epoch check, at most one can no longer be found; every slot, flag and counter afterwards |
| Cuckoo.Cache.Displacing | src/cuckoocache.h:382-415 | the chain of displacements, each into the slot after the last one used when all eight are live, ends in the first free slot or, out of depth, with the element in hand lost; elements are conserved up to that one |
| Cuckoo.Cache.StoredWhenRoom | src/cuckoocache.h:383-390 | an element with a free candidate slot goes into the first one, alone, in the current epoch, and nothing is lost |
| Cuckoo.Cache.LostExactlyWhen | src/cuckoocache.h:382-415 | something is lost if and only if depth_limit displacements found no free slot |
| Cuckoo.Cache.FromOwnSlot | src/cuckoocache.h:406-414 | along the chain every element in hand comes from a candidate slot of its own |
| Cuckoo.Cache.StaysPutExactlyWhen | src/cuckoocache.h:391-407 | the element just put in is not displaced next if and only if its slot is not the following candidate as well |
| Cuckoo.MovedAtOnce | src/cuckoocache.h:368-416 | with hashes that agree, the element just put in is displaced at once and the new one is lost |
| Cuckoo.Cache.Contains | src/cuckoocache.h:443-453 | true exactly when the element is in a candidate slot; on request marks the first that holds it, nothing else |
| Cuckoo.Cache.Perform | src/cuckoocache.h:368-453 | one operation on the contents of the cache: the epoch check, the chain of an insert and what it loses, what a lookup answers and marks |
| Cuckoo.Cache.AliveFindable | src/cuckoocache.h:443-453 | every live element can be found |
| Cuckoo.Cache.Run | src/cuckoocache.h:264-453 | in every run each insert and lookup has its effect and answer, and the live entries of the current epoch never exceed epoch_size + max(1, epoch_size / 16) |
| Cuckoo.FirstDisplaced | src/cuckoocache.h:392-406 | the first displaced slot is the second candidate |
| Cuckoo.BitPackedFlags.constructor | src/cuckoocache.h:60-83 | all packed flags start set |
| Cuckoo.BitPackedFlags.BitSet | src/cuckoocache.h:92-95 | sets that flag and no other |
| Cuckoo.BitPackedFlags.BitUnset | src/cuckoocache.h:103-106 | clears that flag and no other |
| WordBits.WriteLabels | src/bloom.cpp:274-275 | writing a generation relabels that cell and no other of the 64 |
| WordBits.WipeLabels | src/bloom.cpp:262-264 | the word mask clears exactly the cells that carry the reused label |
| RollingBloom.CRollingBloomFilter.constructor | src/bloom.cpp:217-242 | two generations hold at least the requested number of elements; the filter starts empty, and has no cells exactly when no bits are asked for |
| RollingBloom.CRollingBloomFilter.Reset | src/bloom.cpp:305-313 | the filter stands for no keys |
| RollingBloom.CRollingBloomFilter.Wipe | src/bloom.cpp:257-265 | the wipe loop clears exactly the reused generation |
| RollingBloom.CRollingBloomFilter.Rotate | src/bloom.cpp:251-266 | starting a generation drops exactly the oldest of three |
| RollingBloom.CRollingBloomFilter.MarkAll | src/bloom.cpp:269-276 | exactly the cells of the key get the current generation |
| RollingBloom.CRollingBloomFilter.Insert | src/bloom.cpp:249-277 | the key becomes the newest of those the filter stands for, and the exact correspondence is kept |
| RollingBloom.CRollingBloomFilter.Contains | src/bloom.cpp:285-297 | answers exactly as a plain Bloom filter over the last 2 * nEntriesPerGeneration + nEntriesThisGeneration keys |
| RollingBloom.CellAt | src/bloom.cpp:270-274 | the bit is the hash modulo 64, and the pair comes from the rest modulo the size |
| RollingBloom.CRollingBloomFilter.CellSetExactlyWhenHit | src/bloom.cpp:285-297 | a cell is set if and only if one of those keys hashes to it |
| RollingBloom.CRollingBloomFilter.WindowRemembered | src/bloom.h:113-114 | each of those keys is contained |
| RollingBloom.CRollingBloomFilter.Run | src/bloom.cpp:249-297 | after any inserts each of the last 2 * nEntriesPerGeneration + 1 keys is contained |
| Base58Spec.ConvertBack | src/base58.cpp:21-109 | changing the base there and back gives every digit vector again, leading zeros included |
| Base58Spec.DigitsUnique | src/base58.cpp:53-66 | a numeral without leading zeros is the only one of its number |
| Base58Spec.EncodeRoom | src/base58.cpp:79-80 | 58^(n*138/100+1) >= 256^n for every n |
| Base58Spec.DecodeRoom | src/base58.cpp:34-35 | 256^(n*733/1000+1) >= 58^n for every n |
| Base58Spec.AlphabetText | src/base58.cpp:19 | the alphabet |
| Base58Spec.SpaceText | src/base58.cpp:24 | the six characters skipped around a text |
| Base58Spec.NulEnds | src/base58.cpp:116-119 | what follows the first NUL is ignored |
| Base58Spec.DecodeExactly | src/base58.cpp:21-109 | a text decodes to some bytes if and only if it is their encoding between spaces, up to the first NUL |
| Base58Spec.RoundTrip | src/base58.cpp:21-109 | decoding inverts encoding for every byte vector |
| Base58Spec.TextRoundTrip | src/base58.cpp:21-109 | encoding inverts decoding on accepted texts without spaces |
| Base58Spec.CheckExactly | src/base58.cpp:121-140 | with a checksum, too, exactly the padded encodings decode |
| Base58Spec.CheckRoundTrip | src/base58.cpp:121-140 | decoding inverts encoding with a checksum |
| Base58.MulAdd | src/base58.cpp:43-52 | the carry loop computes b * mult + ch in place on the used part of the buffer, and ends without a carry |
| Base58.SkipZeros | src/base58.cpp:60-63 | what follows the leading zeros is the numeral of the number |
| Base58.ReadWord | src/base58.cpp:37-54 | reads exactly the next word into the buffer, or stops at the first character outside the alphabet |
| Base58.EncodeBase58 | src/base58.cpp:70-109 | the encoding |
| Base58.DecodeBase58 | src/base58.cpp:21-68 | the decoding, or none exactly for texts that are not one word of the alphabet |
| Base58.EncodeBase58Check | src/base58.cpp:121-128 | the encoding with four checksum bytes |
| Base58.DecodeBase58Check | src/base58.cpp:130-145 | the decoding, or none on a short or wrong checksum |
| BlockEncodings.MakeCompact | src/blockencodings.cpp:20-30 | the compact form describes the block, and is well formed when the block is not oversized |
| BlockEncodingsSpec.PlacedUnique | src/blockencodings.cpp:60-76 | the prefilled transactions determine the slots |
| BlockEncodings.PlacePrefilled | src/blockencodings.cpp:60-76 | accepts exactly well-formed indexes, placing each prefilled transaction at its slot and nothing else |
| BlockEncodings.NextFree | src/blockencodings.cpp:85-86 | the slot scan stays in bounds and its offset in 16 bits |
| BlockEncodings.ScanSlots | src/blockencodings.cpp:82-104 | the k-th short id maps to the k-th slot that is not prefilled, in 16 bits; fails exactly on duplicates or a crowded bucket |
| BlockEncodingsSpec.NumbersFitExactlyWhen | src/blockencodings.cpp:82-87 | 16-bit slot numbers survive if and only if there are at most 2^16 slots |
| BlockEncodings.WrongSlot | src/blockencodings.cpp:82-134 | a block of 2^16 + 1 transactions whose last one is put into slot 0 |
| BlockEncodingsSpec.ScanNeverEnds | src/blockencodings.cpp:85-86 | with 2^16 prefilled transactions and a short id every 16-bit offset points at a filled slot |
| BlockEncodingsSpec.ScanEndsExactlyWhen | src/blockencodings.cpp:82-88 | with a short id to place, every search for an empty slot ends if and only if there are not exactly 2^16 prefilled transactions |
| BlockEncodingsSpec.PrefilledFew | src/blockencodings.cpp:60-76 | there are never more |
| BlockEncodings.EndlessScan | src/blockencodings.cpp:50-88 | a well-formed compact block within the size limit on which the first search does not end |
| BlockEncodings.PartiallyDownloadedBlock.OfferPool | src/blockencodings.cpp:111-127 | one mempool transaction: the first match fills its slot, a second one empties it for good |
| BlockEncodings.PartiallyDownloadedBlock.OfferExtra | src/blockencodings.cpp:137-159 | one extra transaction: as before, except that a repeat of the same transaction is harmless |
| BlockEncodings.PartiallyDownloadedBlock.FillFromPool | src/blockencodings.cpp:106-134 | each slot is decided by the matches among the transactions looked at; mempool_count is the number of slots filled; stops early only when it equals the number of short ids |
| BlockEncodings.PartiallyDownloadedBlock.FillFromExtra | src/blockencodings.cpp:136-165 | the same, continued over the extra transactions |
| BlockEncodings.PartiallyDownloadedBlock.InitData | src/blockencodings.cpp:50-170 | the status, and on success the content of every slot and the count, for every size; with at most 2^16 slots, by the matches of each short id, with early stops only when complete |
| BlockEncodingsSpec.SearchResolved | src/blockencodings.cpp:106-165 | with exact slot numbers prefilled slots are untouched and the others follow from their own short id |
| BlockEncodingsSpec.SearchCount | src/blockencodings.cpp:106-165 | then filled and empty slots together are the short ids |
| BlockEncodings.PartiallyDownloadedBlock.MissingIndexes | src/net_processing.cpp:2392-2396 | asks for exactly the empty slots, in order |
| BlockEncodings.PartiallyDownloadedBlock.FillBlock | src/blockencodings.cpp:178-219 | rebuilds exactly with the right number of transactions, and is OK, failed or check-failed exactly as CheckBlock passes, suspects corruption or fails; rejects any other number; and what state each case leaves |
| BlockEncodingsSpec.PickedIsOwn | src/blockencodings.cpp:110-165 | without collisions a slot holds the block's own transaction or nothing |
| BlockEncodings.OwnTransactions | src/blockencodings.cpp:50-165 | so do all slots after InitData |
| BlockEncodings.RequestedExactlyWhen | src/blockencodings.cpp:107-165 | a transaction is requested if and only if neither source has it, early exits notwithstanding |
| BlockEncodingsSpec.RebuiltIsBlock | src/blockencodings.cpp:178-199 | filling the rest in order gives the original block |
| BlockEncodings.Transfer | src/blockencodings.cpp:50-219 | compact form, InitData, the missing transactions, FillBlock: the original block, which ends OK exactly when CheckBlock passes it, failed exactly when that suspects corruption |
| Governance.CGovernanceObject.ProcessVote | src/governance-object.cpp:102-224 | the verdict on every vote at every time, and the new record and vote file, including what rejected votes leave behind |
| Governance.CGovernanceObject.CheckVote | src/governance-vote.cpp:240-274 | a vote passes exactly when it is not over an hour ahead, its signal and outcome are known, and its masternode is known and signed it |
| GovernanceSpec.StepKeeps | src/governance-object.cpp:102-224 | with rate checks off each arrival keeps the record equal to the lexicographic maximum of (timestamp, outcome) over those that count |
| GovernanceSpec.RunReflects | src/governance-object.cpp:102-224 | so does every run, at whatever times the votes come |
| GovernanceSpec.BestUnique | src/governance-object.cpp:155-174 | that maximum is unique |
| GovernanceSpec.Determined | src/governance-object.cpp:102-224 | a set of arrivals determines the whole record |
| GovernanceSpec.RecordIdealExactlyWhen | src/governance-vote.cpp:240-246 | the record is what the votes call for if and only if they call for none or the winning vote comes at least once no more than an hour before its timestamp |
| GovernanceSpec.RecordOrLost | src/governance-vote.cpp:240-246 | in every run the votes call for exactly one instance, and that is recorded exactly under this condition |
| GovernanceSpec.EarlyArrivalMatters | src/governance-vote.cpp:240-246 | a vote that is lost two hours early and recorded on time |
| GovernanceSpec.OrderIrrelevant | src/governance-object.cpp:102-224 | two runs with the same votes, in any order and repeated, record the same, if each vote that could count comes in time at least once in each |
| GovernanceSpec.FileExactly | src/governance-object.cpp:102-224 | a hash is in the vote file if and only if it is that of an arrival that counted and that nothing earlier, nor the default, outranked |
| GovernanceSpec.FileDependsOnOrder | src/governance-object.cpp:155-160 | two votes whose order shows in the vote file |
| GovernanceSpec.RateChecksHarmless | src/governance-object.cpp:178-192 | a run in which no vote comes too often records and files what it would without rate checks |
| GovernanceSpec.RateChecksExactlyWhen | src/governance-object.cpp:178-192 | with rate checks on, a record is what it would be without them if and only if that is the default or some counting arrival of the winning vote is not refused for coming too often |
| GovernanceSpec.SpacedNeverTooOften | src/governance-object.cpp:178-192 | votes of a masternode on a signal that are an hour apart never come too often |
| GovernanceSpec.RateChecksMatter | src/governance-object.cpp:178-192 | two votes whose order decides the record when rate checks are on |
| GovernanceSpec.TallyExactly | src/governance-object.cpp:732-746 | a masternode is in a yes, no or abstain tally if and only if its winning vote says so |
| Governance.CGovernanceObject.ProcessAll | src/governance-object.cpp:102-224 | the object after any run is the model's, and reflects the arrivals when rate checks are off |
| Governance.CGovernanceObject.CountMatchingVotes | src/governance-object.cpp:732-746 | the size of the tally |
| Governance.CGovernanceObject.GetAbsoluteYesCount | src/governance-object.cpp:751-754 | yes votes less no votes |
| Governance.CompareNodes | src/governance-object.cpp:102-746 | two nodes with the same votes in different orders, each in time at least once, count the same: the tallies of their runs |

## Left out

- `CAddrMan::Select_` and `GetChance`: random probing without a termination bound, and floating point.
- `CAddrMan::Clear` on a used object, which keeps stale maps, and `Check_`, whose conditions are the proved invariant.
- AddrMan.CAddrMan.Unserialize: takes what a consistent manager saved in the current format and bucket count; other versions and damaged files are not modelled.
- AddrMan.CAddrMan.CountOrphans: counts the entries that loading would prune, and the deletions are left out, because after a consistent save none is due.
- AddrMan.CAddrMan.Serialize: records are values, not bytes; `nTime` and the other fields are unbounded integers.
- Decrement, the hexadecimal and double conversions and the bitwise assignments of the multi-word integers.
- BlockProof.GetBlockProof: the compact targets are inputs, as `GetNextWorkRequired` is not part of this model.
- Chain.CChain.GetLocator: heights are unbounded, so the doubling step cannot overflow.
- Shutdown of the check queue (`fQuit`) and interruption of its threads.
- Cuckoo.Cache.constructor: takes the logarithm of the size, which the program computes in floating point; the sizing from bytes is not modelled. The collection flags of the table are a boolean array, and the packed form is proved to behave like one separately.
- RollingBloom.CRollingBloomFilter.constructor: the number of hash functions and bits are inputs, as they come from real logarithms. Inserting into a filter without cells, on which the program divides by zero, is excluded.
- BlockEncodings.PartiallyDownloadedBlock.InitData: a fresh object, as the counters are never reset, and not 2^16 prefilled transactions together with short ids, on which the program does not return. The length test on hash buckets and the size limit are inputs, and `extra_count`, a logging statistic, is left out.
- BlockEncodings.ScanSlots: excludes the same input, on which the scan does not end.
- BlockEncodings.NextFree: excludes the same input.
- Base58.DecodeBase58: `isspace` is that of the C locale, and lengths are not limited to 32 bits.
- Coins.CoinsDB.BatchWrite: a failing write is not modelled; `CDBWrapper::WriteBatch` throws on one and otherwise returns true (src/dbwrapper.cpp:158-163).
- Coins.CoinsViewCache.Flush: likewise.
- Governance.CGovernanceObject.ProcessVote: orphan votes, the cache of invalid votes and the masternode's own vote counter are not kept; known masternodes, genuine signatures and room for the vote are inputs. Signals and outcomes outside their enumerations, negative ones included, compare as signed integers throughout; the program compares enumeration values in one place and integers in another.
- GovernanceSpec.OrderIrrelevant: votes with the same hash agree in everything the hash covers.
- Hashes, clocks and random numbers are parameters or arbitrary choices everywhere.
- Sticky governance flags, orphan and postponed objects, superblock payments, and removal of votes.
- `CBloomFilter`, false-positive rates, amount compression, the caches of maps, SipHash, BIP 39, InstantSend, key derivation, storage, network and RPC code.
