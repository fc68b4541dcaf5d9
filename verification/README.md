# TiFlash core algorithms in Dafny

A Dafny 4.11 model of seven algorithmic cores of the TiFlash sources, with proofs of what they
are for. `dafny verify dfyconfig.toml` checks all of it.

| modules | what they model |
|---|---|
| `Bits`, `Magic`, `WideArithmetic`, `Libdivide` | division by an invariant integer: the generated magic numbers, the multiplications that replace division, and the portable wide arithmetic below them |
| `Prefixes`, `Btrie` | the IPv4 binary trie with its page allocator and free list |
| `NumberTheory`, `Primality`, `UniqueRandom` | the generator of unique pseudo-random numbers, down to the primality of its modulus |
| `Managers`, `Lease`, `Takeover`, `SchemaCache`, `PlacementRules`, `Reconciliation` | the cluster manager: master election over an etcd lease, the record of the last handled schema version, and the reconciliation of placement rules |
| `Words`, `Memory`, `Codec`, `TikvKey`, `KeyLayout` | the TiKV key codec: memory-comparable strings and integers, table and row keys, hexadecimal keys |
| `CityHash` | the mixing step and the seeded forms of CityHash64 |
| `Histograms`, `Markov` | the Markov text model: training, sampling, reweighting, generation, serialisation |

C integers are unbounded integers with the word size written out: `Unsigned(w, x)` and
`Signed(w, x)` reduce to `w` bits, `And`, `Or` and `Xor` are defined bit by bit on naturals of
any length, and shifts are divisions and multiplications by powers of two. Right shifts of
negative numbers round down and signed overflow wraps, which is what the sources rely on.
Objects that the sources update in place are classes; the trie keeps a ghost map from prefixes
to nodes that its invariant ties to the links in the heap.

## What the proofs establish

- **libdivide.** For both word sizes, every divisor other than zero and every numerator, the
  generated multiplication returns the C quotient. This covers the shift path, the one-word magic
  number, the magic number that is one bit too long and overflows on purpose, both divisor signs
  and the most negative divisor. `INT_MIN / -1` returns `INT_MIN`.
- **Long division.** The portable 128-by-64 division corrects each digit at most twice. It is
  exact for every divisor with a leading zero bit. For a divisor with its top bit set it takes
  `u1 | u0` for the high half (libdivide.h:567), and as long as that is below the divisor the
  result is exact if and only if `u1 | u0 == u1`. Every caller in the file passes `u0 == 0`.
- **Trie.** Every run of insertions and deletions agrees with a plain map in every returned code
  and in what it leaves; lookup is the longest stored prefix; the shape of the tree is a function
  of what is stored, so insertion followed by deletion restores it node for node; tree, free list
  and uncarved slots are always exactly the slots of the pages; and a run of any length takes
  exactly the pages that its greatest number of nodes fills. All that a run needs besides
  what each operation asks is that this number fits in the table of pages.
- **Unique numbers.** No two of any number of draws are equal, for any seeds. Nothing is assumed:
  that 4294967291 is prime is proved from a chain of certificates (181, 22605091, 4294967291), and
  that minus one is not a square modulo a number congruent to 3 modulo 4 by descent. Each value is
  tied to its counter: it is a draw if and only if the permutation takes to it the sum of the
  permuted counter and the offset, xored with the constant.
- **Lock.** Every etcd request and clock reading is a step of its own, and a process may die in
  the middle of a call. A manager holds the key exactly until its last grant runs out, in every
  run. Whether a manager that starts a guarded body holds the key, and whether two managers can
  start at the same instant, is decided for every configuration and every bound `delay` on the
  duration of a call. If refreshes are atomic, or if at least a lease that was seen is still alive
  when its refresh arrives, the lock is safe if and only if `delay < ttl`, and either
  `interval == 0` or `interval + 2 * delay <= ttl`. If a lease may lapse between the read and the refresh, the lock is
  safe if and only if calls take no time at all: the refresh is then in vain and reported as success.
  The lock is live too. What an undisturbed call comes to is stated for every role, note and key:
  a secondary waits until a ttl after its note and then takes an absent key. In every run, after a
  ttl in which nobody does anything, whichever manager calls next holds the key and starts.
- **Placement rules.** A pass asks for exactly one write for each rule that is wrong in its
  snapshot, no sequence of writes does with fewer, and it makes exactly the writes that the lock
  allows, whatever other managers write meanwhile. Every write is for a listed table or against a
  rule of none. Passes over the same tables never undo each other, and one that has the lock for
  its writes ends in sync. With no other writer, what is left wrong is exactly what the lock refused.
  A rule in sync covers the rows of its own table and of no other, with the table's replica count
  and location labels, for learners on TiFlash stores. A pass reports on exactly the tables that
  are not available.
- **Schema versions.** For any interleaving of managers and schema changes, a manager that skips
  at a version that is still current is right to. Of all that it could look at again, the version
  decides: if it has changed, there is a run that looks the same to the manager in which no pass
  ever saw the current tables. Conversely, whatever happens between its steps, a pass writes its
  record exactly if it saw every table available, and a manager that reads this record at its
  version passes over its update exactly until 300 seconds after the check of that pass.
- **Keys.** Every byte of an encoding and of a row key is given, and every malformed key has the error
  that it is refused with. Encodings and hexadecimal keys compare as what they encode, none is a proper prefix of
  another, decoding accepts exactly the encodings with anything after them, and a table's range
  holds exactly its own rows, except that the range of the largest table id is empty because its
  end wraps to the smallest id.
- **CityHash.** With fixed seeds the seeded hash collides exactly where the unseeded one does, and
  undoing the mixing and adding the first seed gives the unseeded hash back.
- **Markov model.** Training counts the positions of each byte in each context, and a zero for the end of a
  string; each byte is sampled for exactly as many
  residues as its count, generation writes only bytes recorded under their context, and reading
  undoes writing exactly if the order and every histogram size are below 256. A histogram of all
  256 byte values is written with size zero and does not come back. A written model that is cut
  short anywhere is refused.

Where the code does something its comments do not say, the model follows the code. Besides the
cases above:

- The lock wrapper leaves a refused write out silently, and the record of the handled schema
  version is put without asking the lock. So a pass that is refused can be recorded as complete
  and leave tables without rules: `RefusedPass` is one. With no other writer, a pass over distinct
  tables that is recorded as complete has left the rules in sync if and only if it had the lock for
  every guarded call.
- A pass compares with its snapshot. A manager that was refused once and has the lock again writes
  rules that another has set meanwhile: `OldSnapshot` is a run in which it writes when nothing is
  wrong.
- Where `u1 | u0` is not below a divisor with its top bit set, the long division is sometimes right
  by coincidence and sometimes wrong: `RightByCoincidence` has one dividend of each kind. Its
  remainder always belongs to its quotient, so it is exact if and only if the quotient is right.

## Model

| member | source | states |
|---|---|---|
| `Bits.PowerOfTwoTest` | contrib/libdivide/libdivide.h:613 | `d & (d - 1)` is zero if and only if `d` is a power of two |
| `WideArithmetic.HighUnsigned` | contrib/libdivide/libdivide.h:262-273 | the limb sums and shifts give the high word of the sum of the four limb products, with no intermediate above 64 bits |
| `WideArithmetic.HighSigned` | contrib/libdivide/libdivide.h:283-290 | the same for signed high limbs, within signed 64 bits |
| `WideArithmetic.MulHiUnsigned64` | contrib/libdivide/libdivide.h:256-275 | the portable form returns the floor of the product over 2^64 for all 64-bit operands |
| `WideArithmetic.MulHiSigned64` | contrib/libdivide/libdivide.h:277-292 | the same for all signed 64-bit operands |
| `WideArithmetic.XorPredecessor` | contrib/libdivide/libdivide.h:440 | `val ^ (val - 1)` is ones up to and including the lowest one bit |
| `WideArithmetic.CountTrailingZeros32` | contrib/libdivide/libdivide.h:427-447 | the number of zero bits below the lowest one bit |
| `WideArithmetic.CountTrailingZeros64` | contrib/libdivide/libdivide.h:449-465 | the same for 64 bits, from 32-bit halves |
| `WideArithmetic.CountLeadingZeros` | contrib/libdivide/libdivide.h:488-507 | the left shift that brings the top one bit to the top of the word (the 32-bit loop at 467-486 is the same) |
| `WideArithmetic.Div64By32` | contrib/libdivide/libdivide.h:520-525 | exact quotient and remainder when the high half is below the divisor |
| `WideArithmetic.QuotientDigit` | contrib/libdivide/libdivide.h:577-583 | the trial digit is corrected at most twice, and is then the exact base-2^32 digit when the partial dividend is below the divisor |
| `WideArithmetic.Normalize` | contrib/libdivide/libdivide.h:559-569 | shifting multiplies dividend and divisor by the same power of two and loses nothing; without a shift the high half becomes `u1` or `u0` |
| `WideArithmetic.LongDivide` | contrib/libdivide/libdivide.h:571-597 | exact on a normalised divisor; the wrapping intermediates hide nothing |
| `WideArithmetic.Div128By64` | contrib/libdivide/libdivide.h:545-598 | all ones when `u1 >= v`; exact when `v` has a leading zero bit; otherwise, where `u1` or `u0` is below `v`, exact if and only if it equals `u1`; for every dividend, exact if and only if the quotient is right; at most four corrections |
| `WideArithmetic.WrappedRemainder` | contrib/libdivide/libdivide.h:585-597 | the wrapped remainder belongs to the wrapped quotient, modulo 2^64, for any two digits |
| `WideArithmetic.RightByCoincidence` | contrib/libdivide/libdivide.h:565-597 | a right and a wrong result where `u1` or `u0` is not below the divisor |
| `Magic.OneWord` | contrib/libdivide/libdivide.h:627-631 | a rounded-up quotient with error below the power makes multiply, keep the high word and shift equal to division |
| `Magic.OneBitMore` | contrib/libdivide/libdivide.h:654-657 | with one bit more, adding the numerator back through the halved difference gives the quotient |
| `Magic.SignedFloor` | contrib/libdivide/libdivide.h:905-912 | multiply, round down and add one to a negative quotient truncates towards zero, for either sign of numerator and divisor |
| `Magic.DoubledBounds` | contrib/libdivide/libdivide.h:633-636 | the doubled quotient overflows by exactly one word, and its successor is a magic number with error at most the divisor |
| `Libdivide.ShiftField` | contrib/libdivide/libdivide.h:82-113 | the shift mask reads the low five or six bits of `more` |
| `Libdivide.Packed` | contrib/libdivide/libdivide.h:637 | the markers and the shift share no bits, so `or` adds them |
| `Libdivide.DivideWide` | contrib/libdivide/libdivide.h:743 | quotient and remainder of a power of two times the word size, at both word sizes |
| `Libdivide.FloorLog2` | contrib/libdivide/libdivide.h:618 | the position of the top one bit |
| `Libdivide.UnsignedShiftPath` | contrib/libdivide/libdivide.h:649-651 | the shift path divides by its power of two |
| `Libdivide.UnsignedOneWordPath` | contrib/libdivide/libdivide.h:658-660 | the plain path shifts the high word by all of `more` |
| `Libdivide.UnsignedAddPath` | contrib/libdivide/libdivide.h:654-657 | the add path does not wrap when the high word is at most the numerator |
| `Libdivide.UnsignedShift` | contrib/libdivide/libdivide.h:613-616 | a power-of-two divisor: the packed result divides every numerator |
| `Libdivide.UnsignedOneWord` | contrib/libdivide/libdivide.h:622-631 | when the error is below the power, the successor of the quotient divides every numerator |
| `Libdivide.UnsignedAdd` | contrib/libdivide/libdivide.h:632-640 | otherwise the doubled and overflowed magic number, with the add marker, divides every numerator |
| `Libdivide.UnsignedGen` | contrib/libdivide/libdivide.h:611-662 | for both word sizes and every divisor above zero, `do(n, gen(d)) == n / d` for every numerator (64-bit form at 732-782) |
| `Libdivide.NegateIfIs` | contrib/libdivide/libdivide.h:900-901 | xor with and subtraction of the sign negates, wrapping, exactly when the sign is minus one |
| `Libdivide.SignedShiftPath` | contrib/libdivide/libdivide.h:896-902 | biasing negative numerators makes the shift truncate, and the sign bit negates |
| `Libdivide.SignedMulPath` | contrib/libdivide/libdivide.h:905-912 | the high word is shifted and a negative quotient corrected by one |
| `Libdivide.SignedAddPath` | contrib/libdivide/libdivide.h:906-909 | the numerator, negated for a negative divisor, is added back without loss |
| `Libdivide.AbsoluteValue` | contrib/libdivide/libdivide.h:859 | the wrapped absolute value read as unsigned is the true one, also for the most negative divisor |
| `Libdivide.SignedShiftAll` | contrib/libdivide/libdivide.h:860-863 | divisors that are powers of two in absolute value, with the wrap at the most negative numerator over minus one |
| `Libdivide.SignedOneWord` | contrib/libdivide/libdivide.h:874-878 | the smaller power, stored negated for a negative divisor |
| `Libdivide.SignedAdd` | contrib/libdivide/libdivide.h:879-888 | the doubled magic number, negative when read as signed |
| `Libdivide.SignedGen` | contrib/libdivide/libdivide.h:855-914 | for both word sizes and every divisor other than zero, `do(n, gen(d))` is truncating division for every numerator, and wraps only at the most negative number over minus one (64-bit form at 1024-1082) |
| `Prefixes.MaskLength` | contrib/libbtrie/src/btrie.c:107-121 | the loops read exactly the leading ones of a mask |
| `Prefixes.LookupIsLongest` | contrib/libbtrie/src/btrie.c:234-249 | the specification of lookup returns the value of a stored prefix of the key that no longer stored one extends, and the null value if none is stored |
| `Prefixes.MatchIsTake` | contrib/libbtrie/src/btrie.c:239-246 | a stored prefix covers an address if and only if it is the address's own prefix of that length |
| `Prefixes.TakeEqual` | contrib/libbtrie/src/btrie.c:239-246 | two addresses have the same prefix of a length if and only if they are equal without their remaining bits |
| `Btrie.Tree.Create` | contrib/libbtrie/src/btrie.c:38-63 | a valid tree of a bare root that stores nothing, in one page |
| `Btrie.Tree.PopFree` | contrib/libbtrie/src/btrie.c:13-17 | takes the head of the free list and nothing else |
| `Btrie.Tree.AddPage` | contrib/libbtrie/src/btrie.c:19-27 | a page of fresh slots, recorded |
| `Btrie.Tree.Alloc` | contrib/libbtrie/src/btrie.c:8-35 | a slot that is in neither the tree nor the free list nor the uncarved part, with a new page only when there is no slot left |
| `Btrie.Tree.Find` | contrib/libbtrie/src/btrie.c:223-250 | the value of the longest stored prefix of the key, or the null value |
| `Btrie.Tree.Walk` | contrib/libbtrie/src/btrie.c:102-121 | descends to the named prefix, or to where the tree ends on the way |
| `Btrie.Tree.Attach` | contrib/libbtrie/src/btrie.c:138-148 | a new valueless child keeps links and allocator valid and changes nothing stored |
| `Btrie.Tree.Extend` | contrib/libbtrie/src/btrie.c:133-148 | one round of growth: exactly one prefix more, and a new page only if it is needed |
| `Btrie.Tree.Grow` | contrib/libbtrie/src/btrie.c:132-152 | all missing prefixes of the named one, nothing stored changes, no node moves |
| `Btrie.Tree.SetValue` | contrib/libbtrie/src/btrie.c:123-130 | exactly one prefix changes its value |
| `Btrie.Tree.Insert` | contrib/libbtrie/src/btrie.c:95-157 | returns 0 exactly if the prefix was absent and then stores exactly it; otherwise changes nothing stored; keeps the tree valid; takes a new page only if it needs one |
| `Btrie.Tree.Descend` | contrib/libbtrie/src/btrie.c:166-178 | the node of the named prefix, or null if it is not in the tree |
| `Btrie.Tree.Detach` | contrib/libbtrie/src/btrie.c:194-204 | unlinks exactly one leaf and pushes it on the free list |
| `Btrie.Tree.Prune` | contrib/libbtrie/src/btrie.c:193-217 | stops with a valid tree in which only the deleted prefix is no longer stored |
| `Btrie.Tree.Delete` | contrib/libbtrie/src/btrie.c:160-220 | returns 0 exactly if the prefix was stored, and removes exactly it |
| `Btrie.Tree.StoredBelow` | contrib/libbtrie/src/btrie.c:206-217 | below every node but the root something is stored |
| `Btrie.Tree.Shape` | contrib/libbtrie/src/btrie.c:193-217 | a prefix is in the tree if and only if it is the root or a prefix of something stored |
| `Btrie.Tree.RootIsBare` | contrib/libbtrie/src/btrie.c:184-191 | the root has no child if and only if nothing but the empty prefix is stored |
| `Btrie.Tree.NodesAre` | contrib/libbtrie/src/btrie.c:132-152 | the nodes are exactly the closure of what is stored under prefixes |
| `Btrie.Tree.NodesBound` | contrib/libbtrie/src/btrie.c:132-152 | a tree has at most 32 nodes per stored prefix besides its root |
| `Btrie.Tree.SubtreeWeight` | contrib/libbtrie/src/btrie.c:65-76 | the number of prefixes in the tree that a prefix covers |
| `Btrie.Tree.Count` | contrib/libbtrie/src/btrie.c:78-86 | the number of nodes; with free list and uncarved slots it is the number of slots of all pages |
| `Btrie.Tree.SlotsOfPages` | contrib/libbtrie/src/btrie.c:19-34 | tree, free list and uncarved slots are disjoint and together exactly the slots of the pages |
| `Btrie.InsertThenDelete` | contrib/libbtrie/src/btrie.c:95-220 | inserting an absent prefix and deleting it restores the same nodes at the same prefixes with the same values |
| `Btrie.Run` | contrib/libbtrie/src/btrie.c:95-220 | every run agrees with a plain map in every result and in what it leaves, and takes exactly the pages that its greatest number of nodes fills |
| `NumberTheory.MinusOneNotSquare` | dbms/scripts/gen-bias-data.py:15 | minus one is not a square modulo any number congruent to 3 modulo 4 |
| `NumberTheory.Euclid` | dbms/scripts/gen-bias-data.py:15 | a prime that divides a product divides a factor |
| `Primality.Certified` | dbms/scripts/gen-bias-data.py:15 | a base of large order proves primality |
| `Primality.Prime4294967291` | dbms/scripts/gen-bias-data.py:15 | the modulus of the generator is prime |
| `UniqueRandom.PermutePQR` | dbms/scripts/gen-bias-data.py:26-34 | keeps residues among the residues and everything else apart from them |
| `UniqueRandom.PermuteIs` | dbms/scripts/gen-bias-data.py:26-34 | modulo 4294967291 the value is the square on the lower half and the negated square on the upper half; from the modulus on it is the argument |
| `UniqueRandom.SameHalf` | dbms/scripts/gen-bias-data.py:30-32 | on either half of the residues squares differ |
| `UniqueRandom.OppositeHalves` | dbms/scripts/gen-bias-data.py:31-34 | a square never meets a negated square |
| `UniqueRandom.PermuteInjective` | dbms/scripts/gen-bias-data.py:26-34 | injective on all naturals |
| `UniqueRandom.PermuteOnto` | dbms/scripts/gen-bias-data.py:26-34 | onto: every residue is the image of a residue, so it permutes them |
| `UniqueRandom.OutputInjective` | dbms/scripts/gen-bias-data.py:21-24 | different counters give different values, for any offset |
| `UniqueRandom.OutputIs` | dbms/scripts/gen-bias-data.py:21-24 | the value is the permutation of `y` if and only if `y` xored with 0x5bf03635 is the permuted counter plus the offset |
| `UniqueRandom.FirstOutput` | dbms/scripts/gen-bias-data.py:21-24 | counter 0 with offset 1 gives 1242645051 |
| `UniqueRandom.UniqueRandomGenerator.constructor` | dbms/scripts/gen-bias-data.py:17-19 | any seeds give a valid generator |
| `UniqueRandom.UniqueRandomGenerator.Next` | dbms/scripts/gen-bias-data.py:21-24 | the value is none of those returned before, and is a value of the permutation exactly at what xors to the permuted counter plus the offset |
| `UniqueRandom.DrawAll` | dbms/scripts/gen-bias-data.py:65-70 | any number of draws gives distinct values, each that of its counter from the seeded one on |
| `Lease.MutexStep` | cluster_manage/pd_client.py:17-35 | every step of every manager keeps that the key is held for an address exactly while its last grant has not run out |
| `Lease.HoldsUntilExpiry` | cluster_manage/pd_client.py:17-35 | in every run, whatever the delays, a manager holds the key if and only if its last grant has not run out |
| `Lease.PromptAct` | cluster_manage/flash_cluster_manager.py:76-110 | every step of `try_get_lock` keeps a master's timestamp within the bound of its grant |
| `Lease.StartHoldsKey` | cluster_manage/flash_cluster_manager.py:24-33 | in every prompt run with live refreshes, a manager about to start a guarded body holds the key, also when others die in the middle of calls |
| `Lease.AtomicStartHoldsKey` | cluster_manage/pd_client.py:28-35 | the same with atomic refreshes and nothing said of leases |
| `Lease.OneMaster` | cluster_manage/flash_cluster_manager.py:24-33 | no two managers start guarded bodies at the same instant of such a run |
| `Lease.SlowStart` | cluster_manage/flash_cluster_manager.py:92-110 | for every configuration and delay that is not prompt, a run with atomic refreshes and two masters |
| `Lease.LapsedRefresh` | cluster_manage/pd_client.py:28-35 | for every prompt delay above zero, a run with two masters: the lease lapses between the read and the refresh |
| `Lease.SafeExactly` | cluster_manage/flash_tools.py:31-33 | for every configuration and delay: safe with live or atomic refreshes if and only if calls are prompt, safe otherwise if and only if they take no time; and mutual exclusion holds exactly when the lock is safe |
| `Takeover.CallEndsSo` | cluster_manage/flash_cluster_manager.py:76-110 | where an undisturbed `try_get_lock` ends, for every role, note, clock and key: what it notes, what becomes of the key, and that nothing else changes |
| `Takeover.SecondaryTakesOver` | cluster_manage/flash_cluster_manager.py:98-103 | a secondary at least a ttl after its note takes an absent key and starts, and no other manager is touched |
| `Takeover.TakesOverInRuns` | cluster_manage/flash_cluster_manager.py:98-103 | so it does in every reached state |
| `Takeover.SecondaryWaits` | cluster_manage/flash_cluster_manager.py:98-103 | before that it does not start and changes nothing |
| `Takeover.MasterRefreshes` | cluster_manage/flash_cluster_manager.py:76-90 | a master whose interval is over keeps its lease for another ttl and starts |
| `Takeover.FindsKeyTaken` | cluster_manage/flash_cluster_manager.py:76-106 | a manager that asks and finds the key another's becomes secondary, does not start and leaves the key alone |
| `Takeover.LosesRace` | cluster_manage/pd_client.py:17-26 | so does one whose key is put after another's |
| `Takeover.Failover` | cluster_manage/flash_cluster_manager.py:92-110 | in every run, whoever has died, after a ttl in which nobody does anything whichever idle manager calls next holds the key and starts |
| `SchemaCache.RunKeeps` | cluster_manage/flash_cluster_manager.py:207-266 | every run, of any managers in any order, keeps each record backed by a pass that saw the tables of its version available |
| `SchemaCache.SkipIsJustified` | cluster_manage/flash_cluster_manager.py:207-230 | a skip at a version that is still current means that a pass of the last 300 seconds read this version and saw exactly the current tables, all available |
| `SchemaCache.CheckOutcome` | cluster_manage/flash_cluster_manager.py:207-230 | under any interleaving, the update is passed over if and only if the record read is of the version read and less than 300 seconds old at the decision; otherwise the manager goes on with that version and time |
| `SchemaCache.PassOutcome` | cluster_manage/flash_cluster_manager.py:232-264 | under any interleaving, the record becomes the version and time of the check if every table read was available, and stays as it is otherwise |
| `SchemaCache.NextSkips` | cluster_manage/flash_cluster_manager.py:207-264 | a manager that reads the record of such a pass at its version passes over its update exactly until 300 seconds after the check of the pass |
| `SchemaCache.SkipIsKnown` | cluster_manage/flash_cluster_manager.py:208-225 | the current tables have been handled recently in every run that looks the same to the skipping manager, if and only if the version that it read is still current |
| `SchemaCache.StaleSkip` | cluster_manage/flash_cluster_manager.py:208-225 | for every version, record and time at which a manager can skip, and every later version, a run in which it skips so and no pass ever saw the current tables |
| `PlacementRules.RuleIdInjective` | cluster_manage/flash_cluster_manager.py:147 | two tables share a rule id if and only if they share their id, for all ids including negative ones |
| `PlacementRules.DigitsAre` | cluster_manage/flash_cluster_manager.py:147 | the decimal digits denote the number, without leading zeros |
| `PlacementRules.RuleIdIs` | cluster_manage/flash_cluster_manager.py:147 | the rule id of a table, for either sign of its id, and that of table 45 |
| `PlacementRules.MakeRuleIs` | cluster_manage/placement_rule.py:6-36 | the rule made for a table, each field by its value or by the table |
| `PlacementRules.MatchesIs` | cluster_manage/flash_cluster_manager.py:152-155 | a rule matches if and only if it is the rule that would be made but for group, id and index |
| `PlacementRules.HasRuleMeans` | cluster_manage/flash_cluster_manager.py:149-155 | a table has its rule if and only if the rule under its id has its replica count, location labels and key range, for learners on TiFlash stores |
| `PlacementRules.InSyncMeans` | cluster_manage/flash_cluster_manager.py:146-163 | in sync, the rules are those of the listed tables and every table has its own |
| `PlacementRules.RuleCoversTable` | cluster_manage/flash_cluster_manager.py:243-247 | a matching rule's hexadecimal range holds a row key if and only if the row is of its table, for every id but the largest |
| `PlacementRules.InSyncMeansNoneWrong` | cluster_manage/flash_cluster_manager.py:150-155 | one matching rule per table and no other if and only if no rule is wrong |
| `PlacementRules.FewestWrites` | cluster_manage/pd_client.py:124-141 | no sequence of writes puts the rules in sync with fewer writes than there are wrong rules |
| `PlacementRules.SetMends` | cluster_manage/placement_rule.py:29-36 | setting a missing rule leaves one wrong rule fewer |
| `PlacementRules.RemoveMends` | cluster_manage/flash_cluster_manager.py:202-205 | so does removing a rule of no table |
| `PlacementRules.ProperMends` | cluster_manage/flash_cluster_manager.py:146-170 | a write of a pass leaves its own rule right, whatever it was, and changes no other |
| `PlacementRules.ProperNeverHarms` | cluster_manage/flash_cluster_manager.py:232-259 | any writes of passes over the same tables leave no rule wrong that was right |
| `PlacementRules.PlacementDriver.SetRule` | cluster_manage/pd_client.py:124-127 | one rule is replaced under its own id |
| `PlacementRules.PlacementDriver.RemoveRule` | cluster_manage/pd_client.py:137-141 | one rule is gone |
| `Reconciliation.Guard` | cluster_manage/flash_cluster_manager.py:24-33 | a guarded call writes exactly if the lock allows it, after whatever other managers wrote |
| `Reconciliation.CheckAndMakeRule` | cluster_manage/flash_cluster_manager.py:146-163 | a new rule is asked for if and only if the one left under the table's id differs in replica count, location labels, key range, role, constraints or override, or there is none; it is written only with the lock; the id is taken out either way |
| `Reconciliation.UpdateTable` | cluster_manage/flash_cluster_manager.py:243-256 | one round: the guarded calls of one table, made or refused one by one |
| `Reconciliation.SetRules` | cluster_manage/flash_cluster_manager.py:237-256 | makes the calls for the tables, each only with the lock; what is left is exactly the rules of no listed table |
| `Reconciliation.RemoveRules` | cluster_manage/flash_cluster_manager.py:258-259 | asks once for the removal of each rule that is left, each only with the lock |
| `Reconciliation.PassIsProper` | cluster_manage/flash_cluster_manager.py:146-259 | every write of a pass is a rule made for a listed table or the removal of a rule of none |
| `Reconciliation.PassTargets` | cluster_manage/flash_cluster_manager.py:146-259 | a pass over distinct tables asks for exactly one write for each rule that is wrong in its snapshot |
| `Reconciliation.NothingToWrite` | cluster_manage/flash_cluster_manager.py:149-163 | a pass asks for no write if and only if the rules are in sync and no id is listed twice |
| `Reconciliation.EvolvedMends` | cluster_manage/flash_cluster_manager.py:24-33 | with other passes over the same tables, what the lock allowed is right at the end and nothing right becomes wrong; with no other writer, what is left wrong is exactly what it refused |
| `Reconciliation.PassResult` | cluster_manage/flash_cluster_manager.py:232-259 | a pass whose writes are all allowed ends in sync in spite of other passes; with no other writer it ends in sync only then |
| `Reconciliation.PassLeavesLast` | cluster_manage/flash_cluster_manager.py:240-259 | with the lock and no other writer, exactly the rules of the listed tables are left, also when an id is listed twice |
| `Reconciliation.ReportsAre` | cluster_manage/flash_cluster_manager.py:249-256 | a pass reports on exactly the tables that are not available, in the order of the list |
| `Reconciliation.TableUpdate` | cluster_manage/flash_cluster_manager.py:232-266 | the rules after a pass are those of its calls as the lock allowed them, with all of the above; in sync every table has its replicas; it reports on exactly the unavailable tables; a pass recorded as complete ends in sync, with no other writer, if and only if it had the lock throughout |
| `Reconciliation.RefusedChangesNothing` | cluster_manage/flash_cluster_manager.py:24-33 | without the lock a pass changes nothing |
| `Reconciliation.RefusedPass` | cluster_manage/flash_cluster_manager.py:261-264 | a refused pass over one available table is recorded as complete and leaves it without its rule |
| `Reconciliation.OldSnapshot` | cluster_manage/flash_cluster_manager.py:239-247 | a pass that is refused, then allowed after another manager has passed, writes although nothing is wrong |
| `Memory.MemoryRoundTrip` | cluster_manage/tikv_util/tikv_key.cc:47-50 | an integer copied to memory is read back |
| `Codec.CompareNegates` | cluster_manage/tikv_util/tikv_key.cc:11 | comparison is antisymmetric and zero only on equal strings |
| `KeyLayout.CompareIs` | cluster_manage/tikv_util/tikv_key.cc:11 | the first differing byte decides, as an unsigned number, and a proper prefix is less |
| `Codec.Encode` | cluster_manage/tikv_util/codec.h:37-41 | nine bytes for each full group of eight and one group more |
| `Codec.EncodeBytes` | cluster_manage/tikv_util/codec.h:19-35 | the loop writes the encoding, byte for byte as laid out |
| `Codec.EncodeLayout` | cluster_manage/tikv_util/codec.h:9-35 | every byte of an encoding: eight bytes of the string to a group, zeros past its end, 0xFF after a full group, and 0xF7 plus the number of bytes used after the last |
| `KeyLayout.EncodeAbc` | cluster_manage/tikv_util/codec.h:19-35 | the encoding of `abc` is `abc`, five zeros and 0xFA |
| `KeyLayout.EncodeEight` | cluster_manage/tikv_util/codec.h:19-35 | the encoding of eight bytes is two groups |
| `Codec.EncodeOrder` | cluster_manage/tikv_util/codec.h:19-41 | encodings compare as the strings, for any lengths |
| `Codec.PrefixFree` | cluster_manage/tikv_util/codec.h:19-41 | no encoding is a proper prefix of another |
| `Codec.PaddingIsZeros` | cluster_manage/tikv_util/codec.h:148-152 | the shifted word is zero if and only if the padding is zero bytes |
| `Codec.DecodeTikvKeyFull` | cluster_manage/tikv_util/codec.h:154-177 | the loop returns what the recursive decoder does, with its error |
| `Codec.DecodeEncode` | cluster_manage/tikv_util/codec.h:154-177 | an encoding with anything after it decodes to its string and its length |
| `Codec.EncodeDecode` | cluster_manage/tikv_util/codec.h:154-177 | what is accepted starts with exactly the encoding of the result |
| `Codec.AcceptsEncodings` | cluster_manage/tikv_util/codec.h:154-177 | a key is accepted if and only if it starts with an encoding |
| `KeyLayout.DecodeIs` | cluster_manage/tikv_util/codec.h:154-177 | what becomes of every key: the error for a key that ends early, for a marker below 0xF7 and for padding that is not zero, and otherwise the string and the offset of what follows |
| `KeyLayout.AccessorsRefuse` | cluster_manage/tikv_util/tikv_key.cc:52-66 | reading the table id or the handle of a malformed key fails with the error of decoding it |
| `Codec.ToPdKeyAt` | cluster_manage/tikv_util/codec.h:111-122 | each byte gives its two digits |
| `Codec.WriteHex` | cluster_manage/tikv_util/codec.h:108-124 | the two loops write the hexadecimal key |
| `Codec.ReadHex` | cluster_manage/tikv_util/codec.h:130-146 | the loop reads it, for strings of even length |
| `Codec.HexRoundTrip` | cluster_manage/tikv_util/codec.h:108-146 | reading undoes writing |
| `Codec.HexRoundTripBack` | cluster_manage/tikv_util/codec.h:108-146 | writing undoes reading if and only if every character is an upper-case digit |
| `Codec.HexOrder` | cluster_manage/tikv_util/codec.h:108-124 | hexadecimal keys compare as the keys |
| `KeyLayout.HexLayout` | cluster_manage/tikv_util/codec.h:108-124 | each byte is written as its two digits, high one first, in upper case |
| `KeyLayout.HexReading` | cluster_manage/tikv_util/codec.h:130-146 | each pair of characters, whatever they are, is read as signed characters by the same sum modulo 256 |
| `KeyLayout.LowerCaseMisread` | cluster_manage/tikv_util/codec.h:130-146 | lower-case digits are read as something else |
| `TikvKey.ReversedInMemory` | cluster_manage/tikv_util/codec.h:43-50 | the three mask-and-shift steps reverse all eight bytes, and are their own inverse |
| `KeyLayout.ReversedBytes` | cluster_manage/tikv_util/codec.h:43-50 | the byte orders at one value |
| `TikvKey.KeyBytesAre` | cluster_manage/tikv_util/codec.h:56-58 | an encoded integer is its offset from the least one, most significant byte first |
| `TikvKey.IntRoundTrip` | cluster_manage/tikv_util/codec.h:56-68 | decoding undoes encoding for every 64-bit integer |
| `TikvKey.KeyBytesOrder` | cluster_manage/tikv_util/codec.h:56-58 | encoded integers compare as the integers |
| `TikvKey.KeyRoundTrip` | cluster_manage/tikv_util/tikv_key.cc:52-66 | table id and handle are read back from a row key with anything after it |
| `TikvKey.HandleOrder` | cluster_manage/tikv_util/codec.h:95-106 | row keys compare by table id and then by handle |
| `TikvKey.HandleAgainstBounds` | cluster_manage/tikv_util/codec.h:79-106 | where a row key lies with respect to the beginning and the end of a table |
| `TikvKey.TableRange` | cluster_manage/tikv_util/tikv_key.cc:27-33 | a table's range holds a row key if and only if it is of this table and the id is not the largest |
| `TikvKey.TableBounds` | cluster_manage/tikv_util/tikv_key.cc:27-41 | a range is non-empty except at the largest id, and ends where the next table begins |
| `KeyLayout.RowKeyLayout` | cluster_manage/tikv_util/codec.h:70-106 | row keys and table bounds as bytes, for every id including the largest |
| `CityHash.ShiftMixInvolution` | contrib/libcityhash/src/city.cc:117-119 | xor with the word shifted by 47 is its own inverse |
| `CityHash.MulInvertible` | contrib/libcityhash/include/city.h:93-98 | multiplication by the constant is invertible modulo 2^64 |
| `CityHash.HashIsBijection` | contrib/libcityhash/include/city.h:91-100 | with the high word fixed the mixing is a bijection of the low word |
| `CityHash.SeedsKeepCollisions` | contrib/libcityhash/src/city.cc:245-252 | two strings collide with one or two seeds if and only if they collide without |
| `CityHash.SeedsAre` | contrib/libcityhash/src/city.cc:245-252 | undoing the mixing with the second seed and adding the first gives the unseeded hash; with one seed the other is 0x9ae16a3b2f90404f |
| `CityHash.HashValues` | contrib/libcityhash/include/city.h:91-100 | three values of the mixing |
| `Histograms.Add` | utils/test-data-generator/MarkovModel.h:30-44 | the loop counts one byte more |
| `Histograms.AddedIs` | utils/test-data-generator/MarkovModel.h:30-44 | the element of the byte counts one more where it is, and a new byte is put at the end with count one |
| `Histograms.AddedProperties` | utils/test-data-generator/MarkovModel.h:30-44 | bytes stay distinct, counts positive, the total their sum; one count grows by one and no other changes |
| `Histograms.Sample` | utils/test-data-generator/MarkovModel.h:46-59 | the running sum finds the byte whose share holds the residue, and never falls through |
| `Histograms.PickIs` | utils/test-data-generator/MarkovModel.h:46-59 | the byte is that of the first element at which the running sum exceeds the residue |
| `Histograms.SampleIsProportional` | utils/test-data-generator/MarkovModel.h:46-59 | exactly as many residues give a byte as its count |
| `Histograms.PickIsRecorded` | utils/test-data-generator/MarkovModel.h:50-56 | a sampled byte is one of the histogram's |
| `Histograms.ModifyCounts` | utils/test-data-generator/MarkovModel.h:127-133 | every count is transformed and the total is their sum modulo 2^32 |
| `Histograms.ModifiedIsHistogram` | utils/test-data-generator/MarkovModel.h:127-133 | positive counts that do not overflow keep a histogram one |
| `Markov.ContextIsSuffix` | utils/test-data-generator/MarkovModel.h:68-74 | what is hashed is the last `n` bytes before the position, or all of them if there are fewer |
| `Markov.ConsumeCounts` | utils/test-data-generator/MarkovModel.h:80-93 | training adds to every count exactly the occurrences of the byte in the context, the end of the string counting as a zero byte |
| `Markov.OccurrencesAre` | utils/test-data-generator/MarkovModel.h:80-93 | the occurrences are the positions of the byte in the context, and one zero in the context at the end of the string |
| `Markov.MarkovModel.RecordByte` | utils/test-data-generator/MarkovModel.h:87 | one byte is recorded under one context |
| `Markov.MarkovModel.Consume` | utils/test-data-generator/MarkovModel.h:80-93 | the loop trains as specified, and keeps every histogram one |
| `Markov.MarkovModel.Generate` | utils/test-data-generator/MarkovModel.h:97-118 | every byte written was sampled from, and recorded under, its own context, none is zero, and generation stops early only at an unknown context or a sampled zero |
| `Markov.MarkovModel.ModifyAll` | utils/test-data-generator/MarkovModel.h:122-135 | every histogram is reweighted and none is added or lost |
| `Markov.RunIsModel` | utils/test-data-generator/MarkovModel.h:80-135 | through any sequence of training and reweighting every histogram stays one and samples each byte for exactly as many residues as its count |
| `Markov.Make` | utils/test-data-generator/MarkovModel.h:77-135 | a model made by any such sequence holds the table that the sequence specifies |
| `Markov.VarUIntRoundTrip` | dbms/src/IO/VarInt.h:121-190 | values below 2^63 survive |
| `Markov.VarFormat` | dbms/src/IO/VarInt.h:174-190 | every byte but the last has its high bit set, a number below 128 is one byte, and a larger one begins with its low seven bits |
| `Markov.EntriesRoundTrip` | utils/test-data-generator/MarkovModel.h:143-184 | entries read back are added to the table |
| `Markov.ModelRoundTrip` | utils/test-data-generator/MarkovModel.h:138-185 | reading undoes writing, whatever follows and in any order of the table, if and only if the order and every histogram size are below 256 |
| `Markov.CountWraps` | utils/test-data-generator/MarkovModel.h:178-183 | a count is kept modulo 2^32, whatever the stream says |
| `Markov.CutShort` | utils/test-data-generator/MarkovModel.h:157-185 | a written model that is cut short anywhere is refused |
| `Markov.ModelBytes` | utils/test-data-generator/MarkovModel.h:138-154 | the bytes of a model with one histogram |
| `Markov.LoadedTwice` | utils/test-data-generator/MarkovModel.h:170-183 | a key that is in the stream twice keeps the later elements and the total of both |
| `Markov.MarkovModel.Write` | utils/test-data-generator/MarkovModel.h:138-154 | the loop writes the format |
| `Markov.MarkovModel.Read` | utils/test-data-generator/MarkovModel.h:157-185 | succeeds if and only if the stream does not end early, and then holds what it says |

## Left out

- WideArithmetic.Div128By64: gives no simpler condition than a right quotient for a divisor with its top bit set when `u1 | u0` is not below it; no caller reaches it, and the right results there follow no pattern of the operands.
- The C++ templates, the `alg0` to `alg4` variants, SSE2 vectors, inline assembly and compiler builtins of libdivide, which repeat the same arithmetic.
- The `do` functions of libdivide use the high word of the product as the double-width multiplication gives it; the portable limb forms are proved equal to it and are not called from them.
- Btrie.Tree.Delete: requires that the empty prefix is not deleted from a bare root, where the source dereferences the root's missing parent.
- Btrie.Tree.Insert: requires that the nodes with those of the new prefix fit in the table of pages; past that the source writes beyond its array.
- Failure of `calloc`, `btrie_destroy`, `btrie_allocated`, and the IPv6 `_a6` functions, which are the same algorithm with other bit addressing.
- Codec.ReadHex: requires an even length, because the source reads past the end of an odd string; likewise the key accessors require keys long enough for their fixed offsets.
- Descending integer encodings (`EncodeUInt64Desc`), Python bindings and `CheckRegionCnt`.
- Lease, SchemaCache: the manager's methods are modelled as steps of a state machine on values, not as methods of a class, because what matters is how steps of several managers interleave.
- Lease: etcd removes the key at the very end of a lease; a real server may keep it somewhat longer.
- SchemaCache: versions and timestamps are numbers; the byte string of the record and its parsing are not modelled, and neither is the lock around a pass.
- Reconciliation: HTTP errors and the exception on a failed `set_rule`, JSON, TLS, logging, the contents of the progress report to TiDB and accelerated scheduling. The lock's outcome for each guarded call and the writes of other managers before it are parameters.
- CityHash: `CityHash64` itself is a parameter; its long loops, and FarmHash and MetroHash, have no specification but themselves.
- Markov: CRC32 and the source of random numbers are parameters; the walk order of the hash table is a parameter that lists every key once.
- Markov.ConsumeCounts: counts that overflow 32 bits are excluded; the methods model the wrap.
- Floating-point sampling in `generate_sample`, and the scripts and tools around these cores.
