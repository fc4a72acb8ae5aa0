# Verification of the encrypted delegated tally

The program computes the result of a weighted election on BGV ciphertexts. Voters submit, over `T`
periods, a candidate choice and a delegate choice; a choice stays in force ("echoes") until it is
replaced. A voter's candidate, and delegate, is the one in force in more than half of the periods. Voting
power flows from delegating voters to the voters that own the delegates, and the tally adds every
voter's resulting weight to the voter's candidate. Everything is computed on packed slots, by rotations,
masks, row swaps and one interpolated polynomial.

This project models that program one level below the cryptography: a ciphertext is a mutable object
holding a vector of residues modulo the plaintext modulus, and an evaluator call is a method with a
slot-wise contract. What the repository builds on those calls keeps its loops, its in-place updates and
its shared pointers, and is proved against plaintext specifications.

`dafny verify dfyconfig.toml` checks everything.

## Main results

- **Every voter's whole power ends at the candidate that its holder chose.** `Election.RunElection` draws the
  inputs from four random streams, packs, streams, echoes, selects, delegates, weights, aggregates and decodes. For
  every size and stream, both echo modes, every refresh option, both diagnostic modes and every plaintext modulus
  `t` whose interpolation is exact, the run passes all its assertions if and only if the drawn power is below `t`.
  What it then prints is stated without supports or weights (`Ballots.TallyByBallots`): candidate c gets the power
  of exactly the voters whose holder, the voter on whom their delegate sits or they themselves, chose c. For an odd
  number of periods, the only kind main.go:70 admits, that is a formula in the draws alone. `Election.RunBenchmark`
  has the same statement for sampled voters. `Election.EncryptedTally` is the refinement behind both: for all
  schedules, the decoded slots are the plaintext tally modulo `t`, whatever padding voters and unused slots hold,
  for any number of ciphertexts, at exactly the modelled cost, and its comparisons pass if and only if every
  compared number is the same modulo `t` and modulo 2^64.
- **Which moduli are right is decided.** The program accepts every modulus above the number of periods. Up to 2^32,
  prime or not, the interpolation is exact if and only if the numbers up to `T` are units, and stops at an assertion
  otherwise (`Lagrange.InterpolatesIffUnits`). A prime below 2^63 is exact for all numbers of periods if and only if
  it is at most 2^32 (`LagrangeLimits.AllPeriods`; three periods suffice to tell, and for five the same holds up to
  2^64/24): above, the 64-bit products lose multiples of 2^64. The diagnostic comparisons of phase 4.3 decide the
  same: every schedule passes them if and only if the interpolation is exact (`Selection.DiagnosticsDecide`). The
  modulus 5000200193, the first prime that is 1 modulo 2^15 above 100000 voters times a power of 50000, fails.
- **The streaming tree is the batch tree.** For every leaf type and every combine function, pushing leaves
  one at a time yields the very value of the recursive reduction of the two halves, the larger one first; the
  frontier is at all times the list of maximal completed subtrees, never longer than floor(log2 total) + 1.
- **Both echo modes compute the same totals.** For all payloads and masks, boolean or not, the root of the
  segment tree and the in-place sequential totals are, slot by slot, the sum over the periods p and over j <= p of
  the payload of j times its mask, carried by the complements of the masks of j+1..p; so a payload counts only
  where its mask is not zero. No supplied ciphertext is changed under any refresh schedule, and the ciphertexts
  have the multiplication depth of the analytical model.
- **Counts and schedules determine each other.** A count matrix has exactly one expansion, in which a voter's choice
  of period p is the column whose units, in column order, p falls among; echoing full expansions gives the counts.
- **Parameter generation takes the largest primes.** Every prime that is returned is at least as large as each
  prime of its size and residue that was left for its place, the last Q prime being the largest that makes the
  product -1 modulo `t`; a search fails only if fewer unused primes exist than it needs. The result is unique and
  each error has its exact condition.
- **Miller–Rabin never rejects a prime**, from Fermat's little theorem and the square roots of one, and what it
  accepts is stated for the seven bases one by one.

## Code and documentation

- The repository's README (lines 94-95) gives the multiplication depth of the echo tree as `ceil(log2(T))`.
  The circuit also multiplies every payload by its mask, so the total that the tree returns has depth
  `ceil(log2(T)) + 1`, which is what the analytical script computes and what is proved here of the ciphertexts.
- `randomVotingVector` promises an entry of at least `ceil(T/2)`, which is a majority only sometimes: every row
  it can draw selects exactly one column if and only if `T` is odd or there is only one column
  (`Workload.EveryDrawnRowSelects`). For even `T` and two columns there is a stream whose first row selects
  nobody (`Workload.EvenSplitSelectsNobody`). main.go:70 admits odd `T` only.
- `lagrangeIndicatorCoefficients` asserts only `T < modulus`. The modular helpers multiply in 64 bits and convert
  the modulus to a signed integer, so they are right for all residues if and only if a prime modulus is at most
  2^32 (`modMul`), and for all units if and only if the modulus is below 2^63 (`modInverse`).

## Model

The modules follow the program: arithmetic (`Modular`, `ModularHelpers`, `Lagrange`, `MillerRabin`,
`LagrangeLimits`, `Parameters`), ciphertexts (`Slots`, `Bgv`), layout (`Matrices`, `Packing`), inputs (`Schedules`,
`CountExpansion`, `Workload`, `Streaming`), echo (`BalancedTree`, `EchoAlgebra`, `PeriodicEcho`, `EchoCosts`,
`EchoPeriods`), tally (`TallySpec`, `PlainTally`, `PackedAlgebra`, `PackedTally`, `Checks`) and the run
(`Selection`, `Ballots`, `Election`).
Evaluator methods take the integer vectors that their operands hold as ghost arguments: slots are always the
residues of an integer vector, which is what makes "nothing wraps" a statement.

| member | source | states |
|---|---|---|
| Election.RunElection | main.go:133-171 | for all sizes, streams, modes and refresh options and every modulus t whose interpolation is exact: D, the schedules' counts and the powers are the drawn ones; the run passes all assertions and comparisons if and only if the drawn power is below t; it then receives 3*n*T inputs at the modelled cost and prints, for every candidate, the exact tally, which is the power of the voters whose holder chose the candidate, and for odd T a formula in the draws; the sum is at most the drawn power, and equal to it when T is odd or there is one candidate |
| Election.DrawnTally | main.go:711-730 | the printed tally of drawn inputs, candidate by candidate, in terms of the choices and, for odd T, of the draws |
| Ballots.TallyByBallots | test.go:85-146 | with each delegate on one voter, a candidate's tally is the power of exactly the voters whose holder chose the candidate |
| Ballots.TallyByWeights | test.go:130-146 | for every matrix D, a candidate's tally is the weight of exactly the voters that chose the candidate |
| Ballots.WeightByVoters | test.go:85-103 | for every matrix D, a weight is the power kept unless a delegate is chosen, plus for every voter with delegate l its power times D's entry at l |
| Ballots.SelectedIsChoice | test.go:12-24 | the selected entry of a row is the one that holds more than half of T |
| Ballots.DrawnChoices | helpers.go:125-145 | for odd T a drawn row chooses the column of its first draw |
| Election.RunBenchmark | main.go:137-171 | the sampled benchmark run on restricted schedules: it passes if and only if the drawn power is below t; three inputs per sampled voter are received at the modelled cost; every candidate's printed tally is exact, and is the power of the voters whose holder is a sampled voter that submitted the candidate; the sum is the sampled voters' weights |
| Election.SampledTallyByVoters | tally_inputs.go:29-40 | the tally of schedules in which only the sample submits, candidate by candidate |
| Election.SampledTally | tally_inputs.go:29-40 | when only the sample submits, in period 0, and every delegate sits on one voter, the tally sums to exactly the sampled voters' weights |
| Election.CheckedTally | main.go:711-730 | for arbitrary valid schedules, 0/1 matrices and powers and a modulus t whose interpolation is exact, the decoded slots are the tally modulo t, and the run passes if and only if every tally entry, and in diagnostic mode every compared number, is the same modulo t and modulo 2^64 |
| Election.CoveredTally | main.go:200-201 | with one voter per delegate and sum(q) below t that is always so, and the tally is exact |
| Election.EncryptedTally | main.go:366-710 | for all schedules, 0/1 matrices and powers, and a modulus t whose interpolation is exact, the decoded slots are the tally modulo t; the inputs received are three per submission; multiplications, additions and refreshes are those of the cost formulas; the comparisons up to phase 4.6 pass if and only if all powers are below t and the compared numbers are the same modulo t and modulo 2^64 |
| Election.TallyPhases | main.go:503-706 | phases 4.4 to 4.7 on packed selections, for any modulus, any 0/1 matrix and any totals whose rows sum to at most T: candidate c's tally modulo t is in slot c of both rows, and the comparisons pass if and only if the compared numbers agree |
| Election.TallyChecks | main.go:518-672 | the comparisons of weighted selections, supports, kept powers, delegated powers and voter weights pass if and only if each of these numbers is the same modulo t and modulo 2^64 |
| Checks.PowerBelowModulusAgrees | main.go:200-201 | when the power is below t that holds for every 0/1 matrix |
| Selection.SelectionPhase | main.go:473-500 | phase 4.3 for every modulus above T: it passes if and only if all denominators are inverted and, in diagnostic mode, the polynomial is right at every echo total; where the interpolation is exact the results are the packed selections |
| Selection.RunToSelection | main.go:309-500 | a run up to its selections, for every modulus above T: it meets no failed assertion if and only if phase 4.3 passes and, in diagnostic mode, all powers are below t; its costs are those of the model |
| Selection.RunCosts | experiments/scripts/analytical_requirements.py:36-56 | the blocks, multiplications, additions and refreshes of a run as plain numbers of n, b, k, T, the slots and the options |
| Selection.DiagnosticsDecide | main.go:497-500 | for every number of voters, candidates, delegates and periods and every modulus above T: the schedules that pass phase 4.3 in diagnostic mode are all schedules if and only if the interpolation is exact |
| Selection.WrongInterpolationIsFound | main.go:497-500 | where it is not exact, a schedule in which one voter submits late fails |
| Selection.EveryTotalOccurs | helpers.go:211-232 | every number from 0 to T is the echo total of a valid schedule |
| Selection.ThreePeriodDiagnostics | helpers.go:349-387 | with three periods and a prime below 2^63, all schedules pass if and only if the prime is at most 2^32 |
| Election.NothingWraps | main.go:200-201 | with exactly one voter per delegate, below the modulus and below 2^64 neither the slots nor the uint64 reference reduce the tally |
| Election.ExpectedFinal | main.go:722-729 | both plaintext references, the materialised one and the memory-light one, are the tally modulo 2^64, so the diagnostic mode does not matter |
| Checks.VerifyLeadingSlots | test.go:442-448 | succeeds if and only if the decoded slots are the expected values |
| Checks.VerifyPackedCiphertexts | test.go:394-412 | decoding and comparing succeeds if and only if the expected values are the matrix modulo t that the voters' slots show, whatever the other slots hold |
| Checks.VerifyBaseSlotCiphertexts | test.go:476-493 | reading one value per voter from the base slots and comparing succeeds if and only if the expected values are the held ones modulo t |
| Checks.VerifyLeadingSlotsCiphertext | test.go:414-440 | the same for the leading slots of one ciphertext |
| Checks.WrapsAgree | test.go:442-448 | a wrapped reference equals the decoded residues if and only if the numbers are the same modulo t and modulo 2^64 |
| Checks.CheckBaseWeights | main.go:339-341 | the projected weights compare equal if and only if every weight is below t |
| Checks.CheckPeriod | main.go:387-394 | both payloads and the shared mask of a received period compare equal to periodPlain |
| Checks.CheckIndicator | test.go:372-392 | for any polynomial, the comparison with indicatorVectorPlain succeeds if and only if the polynomial selects every total rightly |
| Checks.IndicatorVectorPlain | test.go:12-24 | the reference is the majority selection of every entry |
| Checks.WeightedDelegationIndicatorPlain | test.go:67-79 | every selected delegation is scaled by its voter's power, modulo 2^64 |
| Checks.CheckWeighted | main.go:518-531 | the weighted selections compare equal if and only if they are the same modulo t and modulo 2^64 |
| Checks.CheckSupport | main.go:567-569 | the delegate supports compare equal if and only if they are the same modulo t and modulo 2^64 |
| Checks.CheckSelfPower | main.go:612-614 | the kept powers compare equal if and only if they are the same modulo t and modulo 2^64 |
| Checks.DelegatedPlain | main.go:663-669 | the expected delegated powers are those D assigns, modulo 2^64 |
| Checks.CheckVoterWeights | main.go:661-672 | delegated powers and voter weights compare equal if and only if they are the same modulo t and modulo 2^64 |
| Checks.CheckEchoTotals | main.go:468-471 | the comparison of the encrypted echo totals with bounded plaintext totals cannot fail |
| Selection.RefreshAll | main.go:457-465 | the final refresh boundary keeps every packed value and refreshes each ciphertext once |
| Election.PowerCovered | main.go:200-201 | the assertions on the powers hold if and only if their exact sum is below the modulus |
| Election.SumOfTally | test.go:130-146 | the decoded candidates add up to the total of the weighted selections |
| TallySpec.AtMostOneSelected | test.go:36-43 | a row of non-negative counts that sums to at most T has at most one entry above T/2 |
| TallySpec.SelectionsCost | test.go:36-43 | every selected entry costs more than half of the row sum |
| TallySpec.PowerConserved | test.go:85-103 | with exactly one voter per delegate, delegation moves voting power and neither creates nor destroys it |
| TallySpec.TallyConserved | test.go:130-146 | with exactly one voter per delegate, every tally entry, and their sum, lies between 0 and sum(q); the sum is sum(q) if and only if every voter that carries weight selects a candidate |
| TallySpec.SupportWithinPower | test.go:109-128 | no delegate's support exceeds sum(q) |
| TallySpec.WeightWithinPower | test.go:85-103 | for every 0/1 matrix, a voter's delegated power is at most the voter's weight, and that is at most sum(q) |
| TallySpec.KeptAndMoved | test.go:85-103 | one voter's kept power and all the delegated powers together are at most sum(q) |
| TallySpec.DelegatedWithinSupports | test.go:95-100 | a 0/1 row receives at most the sum of the supports |
| TallySpec.DelegatedIsSupport | test.go:95-100 | what all voters receive for the first c delegates is the support of those delegates |
| PlainTally.DelegationIndicatorPlain | test.go:26-47 | returns 1 minus the number of selected delegates of each row, under the at-most-one assertion |
| PlainTally.WeightedSelfPowerPlain | test.go:52-61 | each voter keeps its power, modulo 2^64, unless a delegate is selected |
| PlainTally.DelegateSupportPlain | test.go:109-128 | each delegate's support is the power of the voters that selected it, modulo 2^64 |
| PlainTally.DelegatedVoterWeightsPlain | test.go:85-103 | own power kept plus the supports of the delegates assigned by D, modulo 2^64 |
| PlainTally.DelegatedMaskedTallyPlain | test.go:130-146 | each candidate's entry is the tally specification modulo 2^64, through all wrapped intermediate sums |
| PlainTally.EchoRowsBounded | test.go:36-43 | echo totals of valid schedules have rows of at most T, so the row-sum assertion cannot fail |
| PlainTally.MajorityUnique | test.go:184-191 | two choices together are in force in at most the periods run, so the single-selection assertion cannot fail |
| PlainTally.SelectedChoice | test.go:171-193 | with a reused and cleared buffer, returns the one choice in force in more than half of the periods, or -1 when there is none |
| PlainTally.SupportFromPeriods | test.go:195-201 | the support read off the schedules is the support of the materialised echo totals |
| PlainTally.DelegatedMaskedTallyFromPeriodsPlain | test.go:153-222 | equals the tally of the two materialised echo-total matrices, for all valid schedules, D and q |
| PackedTally.BaseSlotMask | main.go:300-306 | the loops set exactly the base slots of all blocks, padding voters included |
| PackedTally.SpreadSlots | main.go:314-323 | fills the first slots of exactly the blocks of existing voters with their numbers |
| PackedTally.PrepareWeights | main.go:311-334 | the replicated weights and, by the structural mask, the base-slot weights of every ciphertext |
| PackedTally.LogicalRanges | main.go:344-355 | range vectors are 1 exactly on the blocks of existing voters |
| PackedTally.SelectMajorities | main.go:479-490 | every ciphertext is replaced by the polynomial's values at its slots; for an indicator polynomial that packs the majority selection of the packed totals |
| PackedTally.WeightDelegations | main.go:506-511 | slot products with the replicated weights pack the rows scaled by each voter's power |
| PackedTally.AllVotersTotal | main.go:535-549 | rotate-and-add, row swap and in-place accumulation leave the column sum over all voters in the first columns of both rows; padding voters add nothing |
| PackedTally.DelegateSupport | main.go:533-563 | after masking, both rows hold the delegate supports in the first k columns and zero elsewhere |
| PackedTally.SelfPowerCiphertexts | main.go:573-609 | each base slot holds the voter's own power unless a delegate is selected, every other slot zero |
| PackedTally.TargetMasks | main.go:619-629 | one one-hot mask per local voter position that occurs |
| PackedTally.AddDelegate | main.go:646-651 | rotation and mask add one delegate's support to exactly the voter's base slot, in place |
| PackedTally.DelegatedCiphertext | main.go:635-654 | the accumulated ciphertext holds what D assigns to each voter in its base slot |
| PackedTally.VoterWeights | main.go:631-657 | the sum with the self power is the voter weight in every base slot |
| PackedTally.ExpandWeight | main.go:678-686 | the in-place rotate-and-add loop adds the shifts 0 to -(b-1) of the weights |
| PackedTally.WeightedVotes | main.go:688-695 | the accumulated products are the selections scaled by the voter weights, summed over ciphertexts |
| PackedTally.VotesThenVoters | main.go:697-706 | adding ciphertexts before or after summing their voters is the same |
| PackedTally.FinalTally | main.go:674-706 | slot c of either row is candidate c's tally modulo t |
| PackedAlgebra.PolySelects | main.go:476-490 | the interpolated polynomial is the selection in every slot of a packed matrix, used or not |
| PackedAlgebra.RowsTotal | main.go:535-539 | rotating by blocks and swapping rows sums one column over the voters of a ciphertext, in both rows |
| PackedAlgebra.BaseRowSum | main.go:589-591 | adding the k rotations of a block sums a matrix row into its base slot |
| PackedAlgebra.SelfPowerStep | main.go:582-598 | garbage row sums in other slots meet a zero weight |
| PackedAlgebra.MaskedColumns | main.go:552-563 | the delegate mask keeps exactly the first k columns of both rows |
| PackedAlgebra.SupportReachesVoter | main.go:634-649 | rotating by l - blockStart and masking brings delegate l to the voter's base slot, from either row |
| PackedAlgebra.BaseStep | main.go:636-652 | adding one voter's spike extends the base vector by that voter |
| PackedAlgebra.ExpansionSpreads | main.go:677-686 | inside used blocks the expansion copies the base value to the first b offsets, without wrapping into a block |
| PackedAlgebra.VotesWeighted | main.go:688-695 | expanded weights times packed selections scale each row; slots where the expansion wraps meet a zero vote |
| PackedAlgebra.SpreadEnds | main.go:315-323 | before its own voters a ciphertext's vector is zero and after them it is complete |
| Slots.ResiduesHadamard | main.go:507-511 | slot products depend only on the residues of the operands |
| Slots.ResiduesRotationSum | main.go:533-549 | rotate-and-add depends only on the residues of its operand |
| Slots.ResiduesPoly | main.go:479-490 | polynomial evaluation depends only on the residues of its operand |
| Slots.RotationSumPlus | main.go:697-706 | rotate-and-add is additive |
| Bgv.Evaluator.MulRelinNew | periodic_echo.go:83-88 | a new ciphertext that holds the slot products |
| Bgv.Evaluator.AddInPlace | periodic_echo.go:128-128 | changes only its first operand, to the slot sums |
| BalancedTree.PushCompletes | periodic_echo.go:18-44 | pushing leaf m and merging the counted ancestors turns the frontier for m leaves into the frontier for m + 1; every merge finds two operands |
| BalancedTree.MergedAtRightmostLeaf | periodic_echo.go:21-34 | the loop's count is the number of inner nodes of the whole tree that end at the leaf: a node is merged when its rightmost leaf arrives |
| BalancedTree.FrontierLogarithmic | periodic_echo.go:8-11 | an incomplete tree keeps at most floor(log2 size) subtrees |
| BalancedTree.WorkOfRun | periodic_echo.go:35-42 | merges so far plus frontier length is the number of pushes; a full run combines total - 1 times |
| BalancedTree.CountMerges | periodic_echo.go:23-34 | the midpoint walk counts the ancestors that end at the received leaf |
| BalancedTree.IncrementalBalanced.Push | periodic_echo.go:18-44 | the frontier becomes the completed subtrees of one more leaf and stays logarithmic at every point |
| BalancedTree.IncrementalBalanced.MergeClosed | periodic_echo.go:35-42 | the in-place merge loop performs exactly the given number of merges of the last two entries |
| BalancedTree.IncrementalBalanced.Result | periodic_echo.go:46-49 | after the last leaf the one entry left is the recursive reduction of all leaves |
| BalancedTree.StreamAll | periodic_echo_test.go:58-81 | for every value type and combine function, streaming rebuilds the exact grouping of balancedReduce |
| BalancedTree.HalvesCombined | helpers.go:254-267 | one value is its own reduction; more are split into halves, the first one larger by at most one, whose reductions are combined |
| EchoAlgebra.ComposeActs | periodic_echo.go:68-79 | the composition circuit acts as one segment after the other |
| EchoAlgebra.SubtreeRunsPeriods | periodic_echo.go:51-79 | a subtree over periods lo..hi carries value and total from before lo to after hi, for all masks |
| EchoAlgebra.RootIsEchoSum | periodic_echo.go:140-151 | the root's d is the running total of the recurrence |
| PeriodicEcho.ComposeVectors | periodic_echo.go:70-76 | the four products and four sums on slot vectors compute the composition slot by slot |
| PeriodicEcho.PeriodicEchoState.Combine | periodic_echo.go:68-79 | composes every block into new ciphertexts and counts 4 multiplications and 4 additions a block |
| PeriodicEcho.PeriodicEchoState.Gate | periodic_echo.go:99-109 | new ciphertexts for x*z and r - z; the supplied ones are only read |
| PeriodicEcho.PeriodicEchoState.PushLeaves | periodic_echo.go:110-115 | the frontier of ciphertext segments holds the frontier of the abstract tree after the push |
| PeriodicEcho.PeriodicEchoState.AdvanceSequential | periodic_echo.go:123-129 | value and total of every block advance, the total in place, and stay unaliased |
| PeriodicEcho.PeriodicEchoState.RefreshCurrent | periodic_echo.go:130-135 | refreshing replaces the objects and keeps the values |
| PeriodicEcho.PeriodicEchoState.Transition | periodic_echo.go:110-137 | either mode's transition keeps the state consistent with the history and does the counted operations |
| PeriodicEcho.PeriodicEchoState.ClosePeriod | periodic_echo.go:96-138 | the run invariant: state and counters match the history plus this period; inputs and masks keep their values; only the state's own objects change |
| PeriodicEcho.PeriodicEchoState.Totals | periodic_echo.go:140-151 | in both modes the returned ciphertexts hold the recurrence totals of the whole history and have the depth of the model |
| PeriodicEcho.FeedPeriod | periodic_echo.go:94-96 | closing a period of ciphertexts that the state does not own leaves them unowned and its totals its own |
| PeriodicEcho.RunEcho | periodic_echo.go:54-151 | a run over arbitrary supplied periods, boolean masks or not: whatever the mode and refresh policy, each slot of the totals is the closed form of carried payloads modulo t, for one period the gated payload, and no supplied ciphertext changes |
| EchoAlgebra.EchoIsCarried | periodic_echo.go:96-151 | the recurrence's value and total, for all payloads, masks and ranges, are sums of payload times mask times the complements of the later masks |
| EchoAlgebra.MaskedPayloadsDecide | periodic_echo_test.go:24-43 | histories whose payloads agree wherever the mask is not zero have the same values and totals |
| EchoAlgebra.LastMaskedPayload | helpers.go:211-232 | inside the ranges a payload with mask 1 stays in force until the next mask that is not zero |
| EchoAlgebra.UnmaskedIsZero | periodic_echo.go:96-110 | without masks nothing is in force, whatever the payloads |
| EchoAlgebra.NodesReduce | periodic_echo.go:68-79 | coefficients and depths of the tree are reduced side by side |
| EchoCosts.IndexSplitIsSizeSplit | experiments/scripts/analytical_requirements.py:16-29 | splitting by midpoint index and splitting by size build the same tree |
| EchoCosts.TreeDepthIsLogarithmic | experiments/scripts/analytical_requirements.py:16-29 | tree_depth(T) = (L, L+1, L, L+1) with L = ceil(log2 T) |
| EchoCosts.CeilLog2IsLeast | experiments/scripts/analytical_requirements.py:16-29 | L is the least exponent whose power of two reaches T |
| EchoCosts.SequentialDepthIsLinear | experiments/scripts/analytical_requirements.py:38-38 | without refreshes in between, the sequential value and total ciphertexts after m periods have depth m |
| EchoCosts.RefreshedDepths | periodic_echo.go:123-136 | with a refresh at the multiples of the interval the total never gets deeper than interval + 1 |
| EchoCosts.TreeEchoDepth | experiments/scripts/analytical_requirements.py:16-29 | the depths of the reduced tree are tree_depth's |
| EchoCosts.EchoDepths | experiments/scripts/analytical_requirements.py:16-38 | the depth that Totals promises of its ciphertexts is L + 1 for the tree, T for sequential runs, and min(T, interval + 1) for collective sequential runs |
| EchoCosts.CountsMatchModel | experiments/scripts/analytical_requirements.py:55-56 | the operations counted along a run of both echoes are the closed formulas, in both modes |
| EchoCosts.PolicyAlwaysDefined | main.go:87-93 | no call of the refresh predicate that a run can make divides by a zero interval |
| EchoCosts.MultiplesAreQuotient | experiments/scripts/parameter_table.py:39-39 | the counted multiples of the interval are a quotient |
| EchoCosts.RefreshesOfRun | main.go:357-363 | a collective sequential run refreshes every block floor((T-2)/interval) times in between, never for T = 1 |
| EchoCosts.NoIntermediateRefresh | main.go:87-93 | tree runs and runs without collective refresh never refresh in between |
| EchoCosts.RefreshesMatchModel | experiments/scripts/parameter_table.py:38-41 | with the final boundary, refreshed ciphertexts are 2*C*(1 + intermediate), or none |
| EchoPeriods.SlotEcho | periodic_echo.go:96-138 | value and total of a slot are one-hot in the voter's choice in force and its echo count |
| EchoPeriods.EchoIsPlain | helpers.go:207-232 | after all periods the echo recurrence holds the packed plaintext totals in every slot |
| EchoPeriods.CloseBoth | main.go:396-397 | both states consume one period with shared masks and stay independent |
| EchoPeriods.ConsumePeriods | main.go:366-402 | the period loop keeps both histories equal to the packed schedules and counts three inputs per submission |
| EchoPeriods.RunPeriods | main.go:357-403 | for every schedule, mode and refresh policy both results hold the packed plaintext totals |
| Streaming.PackedPeriod | helpers.go:237-252 | packing periodPlain's payload and block mask gives the vectors that streaming accumulates |
| Streaming.EncryptAndAccumulate | tally_inputs.go:112-131 | adds the encrypted slots to one accumulator in place, and to no other |
| Streaming.AccumulatePayload | tally_inputs.go:144-157 | sets and clears the scratch buffer; the accumulators hold one more voter's payload and the buffer is zero again |
| Streaming.AccumulateMask | tally_inputs.go:158-164 | the same for the mask over the voter's whole block |
| Streaming.ReceiveVoter | tally_inputs.go:133-165 | one submitting voter adds three ciphertexts, both buffers are zero again and nothing else changes |
| Streaming.StreamAndAggregatePeriodInputs | tally_inputs.go:49-168 | the three accumulators hold exactly the packed payloads and masks of the voters processed, and the received count is three per submission |
| Streaming.RestrictBenchmarkSubmissions | tally_inputs.go:29-40 | keeps the sampled voters' first-period submissions and clears all others, in place |
| Streaming.BenchmarkReceivesAll | tally_inputs.go:95-109 | on restricted schedules sampled reception already holds the contribution of all voters |
| Schedules.PeriodicEchoTotalsPlain | helpers.go:211-232 | counts, for every voter and choice, the periods in which the choice is in force |
| Schedules.PeriodPlain | helpers.go:237-252 | the one-hot payload and the mask of a period in the requested width |
| Schedules.EchoRowBounded | helpers.go:225-229 | a voter's totals sum to at most the number of periods |
| Schedules.EchoTotalsUnique | helpers.go:211-232 | the echo totals are determined by the schedules |
| Schedules.CurrentIsLast | helpers.go:217-229 | the choice in force is that of the last period whose pair is neither silent nor the paired zero |
| Schedules.NoneBeforeFirst | helpers.go:214-216 | before the first such period no choice is in force |
| Schedules.EchoCountIsCardinality | helpers.go:225-229 | an echo total is the number of periods in which the choice is in force |
| Streaming.SubmittedIsCardinality | tally_inputs.go:95-109 | the submissions of a period are those of the voters that are not silent in both components, the paired zero included |
| CountExpansion.DrainOneHot | helpers.go:428-437 | takes one unit from the first non-empty column in place, -1 exactly when the row is empty |
| CountExpansion.PeriodicChoicesFromCounts | helpers.go:166-185 | succeeds if and only if every row sums to at most T; then a voter's choice of period p is column c if and only if p lies between the sums of the row's entries before c and up to c, each choice occurs as often as counted and absences are a suffix |
| CountExpansion.ExpandedChoice | helpers.go:161-178 | what the counts say of each single period, absences included |
| CountExpansion.ExpansionUnique | helpers.go:161-178 | the counts have only one such expansion |
| CountExpansion.ExpandThenEcho | helpers.go:161-232 | for two components with full rows, the echo totals of the expanded schedules are the original counts, and nothing else is |
| Workload.RandomDelegationMatrix | helpers.go:61-84 | delegate l sits on exactly the voter that the stream's shuffle puts at position l, distinct delegates on distinct voters |
| Workload.EveryAssignmentOccurs | helpers.go:75-81 | every assignment of the delegates to distinct voters is drawn by some stream |
| Workload.RandomVotingVector | helpers.go:125-145 | row v takes the T/2 + 1 draws from position v*(T/2 + 1) on: the first draw's column gets (T+1)/2, each other draw's column one unit |
| Workload.VotingRowEntry | helpers.go:134-142 | every entry of a drawn row in closed form |
| Workload.VotingRowIsMajority | helpers.go:123-145 | for all streams a row sums to T and has an entry of at least ceil(T/2) |
| Workload.EveryDrawnRowSelects | helpers.go:123-145 | every row that can be drawn, for all streams, selects exactly one column if and only if T is odd or there is one column |
| Workload.EvenSplitSelectsNobody | helpers.go:130-142 | for even T and two columns or more a concrete stream draws a row that selects nobody |
| Workload.MajoritySelects | helpers.go:123-145 | a majority row selects exactly one entry when T is odd or there is one column |
| Workload.RandomVotingPower | helpers.go:150-159 | voter i's power is one more than draw i below qMax; the powers sum to at most n*qMax |
| Workload.SumUint64 | helpers.go:271-278 | returns the exact sum, and the overflow assertion fails if and only if the sum reaches 2^64 |
| Packing.NestedCeil | helpers.go:407-414 | rounding up by rows and then by ciphertexts is rounding up once |
| Packing.PythonCeil | experiments/scripts/analytical_requirements.py:37-37 | the script's block formula is the rounded-up quotient |
| Packing.LayoutCounts | helpers.go:398-416 | the layout holds every voter, its last ciphertext is used, and its count is the analytical one |
| Packing.BlocksDisjoint | test.go:362-366 | blocks of distinct voters of a ciphertext share no slot |
| Packing.VoterOfSlot | helpers.go:389-416 | a slot belongs to a voter if and only if it lies in the voter's block of the voter's ciphertext |
| Packing.DecodePackedBlocks | test.go:345-370 | reads every voter's block in order and stops after n*w values |
| Packing.DecodeOfPacked | test.go:345-370 | decoding a packed n-by-w matrix returns it |
| ModularHelpers.ModMul | helpers.go:326-329 | the product of residues modulo m, exact for m up to 2^32 although the product is a uint64 |
| ModularHelpers.ProductsExactUpTo32Bits | helpers.go:326-329 | for a prime modulus all 64-bit products of residues are exact if and only if the modulus is at most 2^32 |
| ModularHelpers.ReducesBelow63Bits | helpers.go:312-319 | for moduli below 2^63 Go's signed remainder is made the residue in 0..m-1 |
| ModularHelpers.ReducesFrom63Bits | helpers.go:312-319 | for moduli from 2^63 on the result is the residue if and only if the value is smaller in size than 2^64 - m, or is -2^63 modulo 2^63 |
| ModularHelpers.EuclidStepInRange | helpers.go:336-340 | by the balance of the cofactors no int64 intermediate exceeds the modulus |
| ModularHelpers.EuclidStep | helpers.go:336-340 | one division step keeps the balance and the greatest common divisor |
| ModularHelpers.StepDoesNotWrap | helpers.go:336-340 | while the balance holds, none of the wrapping int64 operations of a step wraps |
| ModularHelpers.ModInverse | helpers.go:331-347 | for every uint64 modulus it computes the wrapping loop; below 2^63 its assertion fails if and only if the gcd is not 1, and otherwise the result is the inverse in 0..m-1 |
| ModularHelpers.InvertsAllUnitsBelow63Bits | helpers.go:331-347 | it inverts all units if and only if the modulus is below 2^63 |
| ModularHelpers.MinusOneFailsFrom63Bits | helpers.go:334-342 | from 2^63 on the assertion fails for m - 1, a unit |
| Modular.GcdIsGreatest | helpers.go:342-342 | every common divisor divides the gcd that the assertion is about |
| Lagrange.TimesNode | helpers.go:369-375 | the in-place updates compute the wrapping product with x - j, for every modulus |
| Lagrange.TimesNodeExact | helpers.go:369-375 | up to 2^32 that is the product with x - j modulo the modulus |
| Lagrange.DenominatorInvertible | helpers.go:377-380 | for a modulus above T and up to 2^32 with units up to T every denominator is invertible |
| Lagrange.InterpolatesIffUnits | helpers.go:349-387 | for every modulus above T and up to 2^32, prime or not, the result is the indicator polynomial if and only if the numbers up to T are units, and an assertion fails otherwise |
| Lagrange.InterpolationStep | helpers.go:380-383 | adding the scaled basis extends the interpolated indicator by one node |
| Lagrange.LagrangeIndicatorCoefficients | helpers.go:349-387 | for every uint64 modulus above T the result is the wrapping computation CoefficientsOf, None where modInverse asserts; up to 2^32 it exists if and only if the numbers up to T are units, and is then the indicator polynomial; for all 64-bit primes it is so when T is at most 1 |
| Lagrange.ExactInterpolates | helpers.go:349-387 | for primes up to 2^32, and for all 64-bit primes when T is at most 1, T + 1 reduced coefficients take on 0..T the value 1 above T/2 and 0 elsewhere |
| Lagrange.OnePeriodInterpolates | helpers.go:349-387 | for one period the result is right if and only if the modulus is not 2^64 - 1 |
| LagrangeLimits.LossyProduct | helpers.go:326-329 | a 64-bit product modulo p is the true one less a multiple of 2^64 |
| LagrangeLimits.TwoPeriods | helpers.go:349-387 | for two periods and an odd modulus below 2^63 the result is right if and only if (p-1)(p+1)/2 is below 2^64 |
| LagrangeLimits.AllPeriods | helpers.go:349-387 | a prime below 2^63 gives the indicator for every number of periods below it if and only if it is at most 2^32 |
| LagrangeLimits.ThreePeriods | helpers.go:349-387 | for three periods and a prime below 2^63 the result is right if and only if the prime is at most 2^32 |
| LagrangeLimits.ThreePeriodsFail | helpers.go:349-387 | it is wrong for every modulus from 2^32 + 3 to 2^63 that is prime to 6 |
| LagrangeLimits.FivePeriods | helpers.go:349-387 | for five periods and a prime up to 2^64/24 the result is right if and only if the prime is at most 2^32 |
| LagrangeLimits.FivePeriodsFail | helpers.go:349-387 | it is wrong for every modulus from 2^32 + 5 to 2^64/24 that is prime to 10 |
| LagrangeLimits.ConcreteFailures | helpers.go:349-387 | it is wrong for three and five periods modulo 4294967311 and modulo 5000200193 |
| MillerRabin.SquaringLoop | experiments/scripts/generate_aligned_parameters.py:23-31 | the loop with its for/else exit decides the strong-probable-prime condition |
| MillerRabin.Prime | experiments/scripts/generate_aligned_parameters.py:9-32 | for a number that a prime up to 37 divides, True if and only if it is that prime; for the others, True if and only if for each of the seven bases, however n - 1 is written as an odd d times 2^s, n divides the base, its d-th power is 1, or one of the powers d*2^r with r < s is -1 |
| MillerRabin.TestsDecide | experiments/scripts/generate_aligned_parameters.py:9-32 | the same of the specification that the other results use |
| MillerRabin.WithstandsFermat | experiments/scripts/generate_aligned_parameters.py:20-31 | a number that withstands a base that it does not divide satisfies a^(n-1) = 1 |
| MillerRabin.RejectsComposite | experiments/scripts/generate_aligned_parameters.py:20-31 | 1763 = 41 * 43, which has no factor up to 37, is rejected |
| MillerRabin.SquareRootsOfOne | experiments/scripts/generate_aligned_parameters.py:26-31 | modulo a prime, 1 has only the square roots 1 and -1 |
| MillerRabin.PrimeIsStrongProbable | experiments/scripts/generate_aligned_parameters.py:20-31 | a prime passes for every base |
| MillerRabin.PrimePassesTests | experiments/scripts/generate_aligned_parameters.py:9-32 | the test never rejects a prime |
| MillerRabin.ExactBelow1681 | experiments/scripts/generate_aligned_parameters.py:12-14 | below 41 squared the test accepts exactly the primes |
| Modular.FermatLittle | experiments/scripts/generate_aligned_parameters.py:23-23 | a^(p-1) = 1 modulo a prime p that does not divide a |
| Parameters.FindPrime | experiments/scripts/generate_aligned_parameters.py:35-42 | the number returned has the size and residue, is not excluded and passes the test; every such number, and every prime of that size and residue that is not excluded, is at most the one returned, so none exists when the search fails |
| Parameters.ResidueSolvesBoth | experiments/scripts/generate_aligned_parameters.py:56-58 | every member of the last progression is 1 modulo the step and makes the product -1 modulo t |
| Parameters.CompletionsAreResidues | experiments/scripts/generate_aligned_parameters.py:56-58 | the last progression holds all such numbers and no other |
| Parameters.StepInvertible | experiments/scripts/generate_aligned_parameters.py:51-57 | t = 1 modulo the step makes the step invertible modulo t |
| Parameters.ProductInvertible | experiments/scripts/generate_aligned_parameters.py:56-56 | if the witnesses are exact, the product of the Q primes is invertible modulo t |
| Parameters.AppendPrimes | experiments/scripts/generate_aligned_parameters.py:53-63 | each number appended is at least every prime of its size that is 1 modulo the step and was left at its turn; the search fails if and only if the greedy sequence does not exist, and only if fewer distinct unused primes exist than are needed |
| Parameters.StuckWithoutPrimes | experiments/scripts/generate_aligned_parameters.py:42-42 | a search that is stuck after some numbers leaves no more distinct unused primes than those |
| Parameters.AlignProduct | experiments/scripts/generate_aligned_parameters.py:56-58 | the last number is at least every unused prime of its size that is 1 modulo the step and makes the product -1 modulo t; failure means that there is none |
| Parameters.GeneratedUnique | experiments/scripts/generate_aligned_parameters.py:45-66 | at most one result meets the specification |
| Parameters.Generate | experiments/scripts/generate_aligned_parameters.py:45-66 | Q and P are distinct, differ from t, are 1 modulo 2N, have their bit sizes and product(Q) = -1 modulo t; each is the largest prime left for its place, and the greedy choice is found whenever it exists; sizes outside the ranges of lines 46-49 are rejected, a t that is not 1 modulo 2N is, a prime one is not; each of the four errors occurs if and only if its stated condition holds |
| Parameters.PickPlaintextModulus | helpers.go:13-23 | a number above 2N that reaches n, is 1 modulo 2N and passes the primality test, and the least such number above 1 |

## Left out

- Lattigo itself: encryption, noise, levels, keys, rotations' Galois keys, key switching and the multiparty
  protocols. Refresh, encryption and threshold decryption keep the slot values.
- Parameters.Generate: that the seven Miller–Rabin witnesses decide all 64-bit numbers is a computed fact and
  appears as the hypothesis `WitnessesExact`, only where invertibility of the product needs it.
- Parameters.PickPlaintextModulus: takes a prime of the progression as its termination bound and the library's
  primality test as a function.
- Lagrange.LagrangeIndicatorCoefficients: above 2^32 the wrapping computation is stated for every modulus, but
  whether it is wrong is decided only for T up to 3 (T = 3 below 2^63) and for T = 5 up to 2^64/24; for other T
  the sums of several inverses of wrapped denominators are left undecided.
- Election.RunElection: the interpolation is required to be exact, as in Election.RunBenchmark, Election.CheckedTally
  and Election.EncryptedTally; what a run without diagnostic comparisons decodes with a wrong polynomial is not stated
  (with them, Selection.RunToSelection says when it fails).
- EchoCosts.EchoDepths: depths are those of the echo ciphertexts; the five downstream levels and the library's
  polynomial evaluation are constants of the script.
- Ciphertexts with other than two slot rows; the tally's row swap presupposes two.
- Workload.RandomDelegationMatrix, Workload.RandomVotingVector, Workload.RandomVotingPower: the random source is
  an arbitrary stream, so the rejection loop of randUint64n and the distribution are not modelled.
- The comparisons of phases 4.4 to 4.6 are made together after phase 4.6; they only read. A run's result is the
  conjunction of its comparisons, so a failed one does not stop the model.
- The ciphertext echo runs its own push on segments of ciphertexts, since its combine function allocates;
  it shares the merge count and the frontier specification with the generic tree.
- weightedRowMaskSumPlain, randomDelegationVector and the single-key decoders, which the run does not use.
- The named parameter profiles and the parameter file of experiment_parameters.go, which guarantee a modulus above
  n*qMax; a run whose modulus the drawn power reaches stops at the assertion of main.go:200.
- Command line, metrics, timing, progress output, campaign and plotting scripts, and the recorded evidence.
