# PAV core-stability proof checkers, modelled in Dafny

This project models the exact, sequential parts of the scripts behind a
computer-aided proof about Proportional Approval Voting (PAV). The proof asks
whether a committee chosen by PAV can be blocked by a "core" deviation. The
scripts explore *histories*: a history is a list of steps `(committee, T)`, where
`T` is a deviation objecting to that committee. An LP is solved for each
history. A history the LP shows infeasible comes with a *Farkas certificate*,
a dual vector `(alpha, beta, gamma)`.

The model has five modules:

- `Collections` (collections.dfy) holds the shared vocabulary.
  - Alternatives are `nat`s. Python tuples are sequences.
  - Python's `sorted` is the insertion sort `Sort`. `tuple(sorted(set))` is `SortedElems`.
  - `Option` and `Result` stand in for values that may be missing and for
    operations that can raise.
- `Powerset` (powerset.dfy) models `powerset` and `itertools.combinations`.
  These give the universe of ballots and the candidate newcomers and deviations.
- `Wlog` (wlog.dfy) models the symmetry breaking:
  - `generate_wlog_partition` groups the alternatives by their membership
    pattern across the identifiable sets;
  - `is_wlog` decides whether a selection takes, within each block, the
    lowest-numbered elements.
- `Committees` (committees.dfy) models `utility`, `symmetric_difference`,
  `swaps` and `committees_obtained_by_swap`.
- `Histories` (histories.dfy) holds the shared history values:
  - steps and histories;
  - the `info` records (`successful`, and the optional `farkas` certificate);
  - the union of past deviations;
  - the list of identifiable sets.
- `FarkasVerify` (farkas_verify.dfy) models `check_farkas_for_history` and `worker`.
  - It is an imperative method over exact reals: for every ballot it
    accumulates the left-hand side, with beta terms per swap, then gamma and a
    `break` at the first preferred deviation. It then checks the dual objective.
  - The method is proved equal to a functional verdict.
  - That verdict is characterised by closed forms: for each swap, the lhs
    change is beta times the PAV score gain of the swap; a ballot's lhs is
    alpha plus the weighted gains of the steps while it is still active, minus
    the gamma of the first step where it prefers `T`; and the objective is
    `alpha - sum(|T_t|/k * gamma_t)`.
- `FarkasCheckComplete` (farkas_check_complete.dfy) models `get_continuations` and `run`.
  - Continuations are characterised exactly: one step more, a canonical
    committee of size k that contains every past deviation, and a canonical
    deviation of 1..k alternatives that is not inside that committee.
  - `run` is a worklist method over an immutable `info` map. It is proved to
    answer `Complete` exactly when every history the walk reaches passes its
    checks.
  - When it stops early it names a reachable history and the assertion of
    `run` or `get_continuations` that fails there.
  - It is proved to terminate. Each continuation uses up at least one fresh
    alternative, so the walk's queue weight, a sum of `(B+1)^potential`,
    strictly drops on every iteration.

Python exceptions are values in the model:

- a failed `assert` in `is_wlog` is `Err(BlocksOverlap)` or `Err(SelectionNotCovered)`;
- `places_to_fill < 0` is `Err(NoPlacesLeft)`;
- a missing `beta` or `gamma` key is `MissingBeta` or `MissingGamma`;
- `k == 0` in `Fraction(len(T), k)` is `ZeroCommitteeSize`;
- a failed `assert lhs >= 0` is `NegativeLhs`;
- a failed objective assertion is `ObjectiveTooLarge`;
- a failed `run` assertion is a `RunFailure`.

The global `A = range(num_alts)` of the C scripts becomes a parameter `numAlts`,
with `Range(numAlts)` standing for `A`.

Two behaviours of the code that the model keeps:

- `powerset` yields combinations of sizes 1 up to `len(xs) - 1`. So the ballot
  universe excludes both the empty ballot and the full ballot, not the whole
  power set (`Powerset.PowersetSpec`).
- `check_farkas_for_history` does not check the signs of `beta` or `gamma`.
  The model does not add such a check.

## Model

| member | source | states |
|---|---|---|
| Collections.SortedElemsSpec | C_recursive_PAV_rule/farkas-check-complete.py:27 | `tuple(set)` as modelled lists each element of the set exactly once, in increasing order |
| Collections.SortElems | A_committee_size_7/utility_functions.py:29 | `sorted(block)` keeps the elements and the length, and is strictly increasing when the block has no repeats |
| Collections.SortEquality | A_committee_size_7/utility_functions.py:34-35 | `sorted(a) == sorted(b)` holds exactly when a and b hold the same elements with the same multiplicities |
| Powerset.CombinationsSpec | A_committee_size_7/utility_functions.py:10 | for an increasing xs, `combinations(xs, n)` yields exactly the increasing n-element lists drawn from xs |
| Powerset.CombinationsOfSizesSpec | A_committee_size_7/utility_functions.py:10 | chaining the combinations for sizes lo..hi-1 yields exactly the increasing lists from xs whose length lies in that range |
| Powerset.PowersetSpec | A_committee_size_7/utility_functions.py:8-10 | the ballots are exactly the increasing lists from xs with 1 to len(xs)-1 entries; the empty ballot and the full ballot are excluded |
| Powerset.PowersetSubsets | A_committee_size_7/utility_functions.py:8-10 | a set's sorted tuple is a ballot exactly when the set is a nonempty proper subset of xs |
| Powerset.CombinationsCount | A_committee_size_7/utility_functions.py:10 | there are at most 2^len(xs) combinations of any one size |
| Wlog.GenerateWlogPartition | A_committee_size_7/utility_functions.py:15-24 | the nested append loops build the list of nonempty blocks, one per inclusion pattern from `product([True, False])`, in product order |
| Wlog.InclusionsLength | A_committee_size_7/utility_functions.py:17 | `product([True, False], repeat=m)` yields exactly the boolean patterns of length m |
| Wlog.InclusionsNoDup | A_committee_size_7/utility_functions.py:17 | each inclusion pattern is produced once |
| Wlog.BlockSpec | A_committee_size_7/utility_functions.py:18-21 | x is put in a pattern's block exactly when x is in A and its membership in every identifiable set agrees with the pattern |
| Wlog.WlogPartitionNonempty | A_committee_size_7/utility_functions.py:22-23 | every returned block is nonempty |
| Wlog.WlogPartitionBlocksNoDup | A_committee_size_7/utility_functions.py:18-21 | when A has no repeats, no block has repeats |
| Wlog.WlogPartitionDisjoint | A_committee_size_7/utility_functions.py:15-24 | the blocks are pairwise disjoint |
| Wlog.WlogPartitionCovers | A_committee_size_7/utility_functions.py:15-24 | an alternative lies in some block exactly when it is in A |
| Wlog.WlogPartitionUnion | A_committee_size_7/utility_functions.py:15-24 | the union of the blocks is A |
| Wlog.WlogPartitionSameBlock | A_committee_size_7/utility_functions.py:17-21 | two alternatives of A share a block exactly when each identifiable set contains both or neither |
| Wlog.IsWlogOverlap | A_committee_size_7/utility_functions.py:30 | `is_wlog` fails its disjointness assertion exactly when two blocks overlap |
| Wlog.IsWlogUncovered | A_committee_size_7/utility_functions.py:31-32 | on disjoint blocks, `is_wlog` fails its covering assertion when some element of xs is in no block |
| Wlog.CountsSum | A_committee_size_7/utility_functions.py:31-32 | on disjoint blocks, the per-block counts sum to the number of elements of xs that some block holds |
| Wlog.IsWlogDefined | A_committee_size_7/utility_functions.py:29-35 | on disjoint blocks, `is_wlog` completes for any xs without repeats that the blocks cover |
| Wlog.IsWlogCanonical | A_committee_size_7/utility_functions.py:29-35 | when it completes, `is_wlog` answers true exactly when, in every block, xs holds the |block ∩ xs| smallest elements of the block |
| Wlog.WlogSelectionCanonical | A_committee_size_7/utility_functions.py:33-35 | the selection built from the counts takes as many elements from each block as xs does, and `is_wlog` accepts it |
| Wlog.CanonicalUnique | A_committee_size_7/utility_functions.py:33-35 | two canonical selections that take equally many elements from every block are the same set |
| Wlog.CanonicalForSets | A_committee_size_7/utility_functions.py:15-35 | on the partition generated from the identifiable sets, canonical means: no smaller alternative indistinguishable from a chosen one is left out |
| Wlog.IsWlogOnWlogPartition | A_committee_size_7/utility_functions.py:15-35 | on a generated partition, `is_wlog` never fails, and answers whether xs takes the smallest of every class of indistinguishable alternatives |
| Committees.ComputeUtility | A_committee_size_7/utility_functions.py:41-49 | the counting loop returns the number of committee entries the ballot approves |
| Committees.UtilityIsOverlap | A_committee_size_7/utility_functions.py:42-49 | for a committee without repeats, the utility equals |set(ballot) ∩ set(committee)| |
| Committees.UtilityBound | A_committee_size_7/utility_functions.py:44-49 | the utility is at most len(committee) |
| Committees.UtilityPositive | A_committee_size_7/utility_functions.py:44-49 | the utility is at least 1 when some member of the committee is in the ballot |
| Committees.SymmetricDifference | A_committee_size_7/utility_functions.py:51-53 | the size of the symmetric difference is the sum of the two one-sided differences, and it is 0 exactly when the two tuples hold the same set |
| Committees.SymmetricDifferenceSymmetric | A_committee_size_7/utility_functions.py:51-53 | the symmetric difference does not depend on the order of its arguments |
| Committees.ComputeSwaps | A_committee_size_7/utility_functions.py:65-72 | the nested append loops return the list `Committees.Swaps`: the pairs (x, y), x from the committee in order and, for each x, y from A in order |
| Committees.SwapsMember | A_committee_size_7/utility_functions.py:65-72 | (x, y) is listed exactly when x is in the committee and y is in A but not in the committee |
| Committees.SwapsLength | A_committee_size_7/utility_functions.py:65-72 | for A and committee without repeats and committee ⊆ A, there are |committee|·(|A|-|committee|) swaps |
| Committees.SwapsNoDup | A_committee_size_7/utility_functions.py:65-72 | no swap is listed twice when A and the committee have no repeats |
| Committees.ComputeCommitteesObtainedBySwap | A_committee_size_7/utility_functions.py:55-63 | the nested append loops return the sorted swapped committee of every swap, in swap order |
| Committees.SwappedFacts | A_committee_size_7/utility_functions.py:61-62 | the swapped committee is strictly increasing, has the same size as the committee, equals committee - {x} + {y}, and has symmetric difference 2 with it |
| Committees.SwapDistanceTwo | A_committee_size_7/utility_functions.py:55-63 | conversely, every increasing tuple of the same size at symmetric difference 2 arises from a single swap |
| Committees.ObtainedMember | A_committee_size_7/utility_functions.py:55-63 | a tuple is listed exactly when it is increasing, drawn from A, of the committee's size, and at symmetric difference 2 from it |
| Committees.SwapUtility | A_committee_size_7/utility_functions.py:41-63 | a swap changes the utility by -1 if the ballot approves x, and by +1 if it approves y |
| Histories.PastDeviationsMember | C_recursive_PAV_rule/farkas-check-complete.py:21 | an alternative is a past deviation exactly when some step's T contains it |
| FarkasVerify.SwapContribution | C_recursive_PAV_rule/farkas-verify-multiprocessing.py:35-41 | the body of the swap loop adds exactly the swap's term (or raises for a zero utility) |
| FarkasVerify.AddBetaTerms | C_recursive_PAV_rule/farkas-verify-multiprocessing.py:34-41 | the swap loop of one step computes the beta terms' sum, failing on the first missing beta key |
| FarkasVerify.ComputeBallotLhs | C_recursive_PAV_rule/farkas-verify-multiprocessing.py:27-46 | the per-ballot loop over the history, with its `break`, computes the ballot's lhs or its error |
| FarkasVerify.CheckFarkasForHistory | C_recursive_PAV_rule/farkas-verify-multiprocessing.py:20-50 | the checker passes or fails exactly as the verdict function says, and reports the same first error |
| FarkasVerify.Worker | C_recursive_PAV_rule/farkas-verify-multiprocessing.py:52-56 | `worker` answers true exactly when the check completes without a failed assertion or a raised error |
| FarkasVerify.SwapTermLoses | C_recursive_PAV_rule/farkas-verify-multiprocessing.py:36-38 | for a swap whose x is a committee member that the ballot approves while it does not approve y, the utility is at least 1, so the division is safe, and a nonzero beta changes lhs by exactly -beta/utility |
| FarkasVerify.ScoreGainDown | C_recursive_PAV_rule/farkas-verify-multiprocessing.py:36-38 | when the ballot loses x, the utility is at least 1 (so the division is safe) and its PAV score drops by 1/utility |
| FarkasVerify.ScoreGainUp | C_recursive_PAV_rule/farkas-verify-multiprocessing.py:39-41 | when the ballot gains y, its PAV score rises by 1/(utility+1), the harmonic difference H(u+1)-H(u) |
| FarkasVerify.ScoreGainNeutral | C_recursive_PAV_rule/farkas-verify-multiprocessing.py:35-41 | when the ballot approves both x and y or neither, its PAV score is unchanged |
| FarkasVerify.SwapTermIsScoreGain | C_recursive_PAV_rule/farkas-verify-multiprocessing.py:34-41 | for a real swap, the term added is beta times the change in the ballot's PAV score |
| FarkasVerify.ApprovedIsOverlap | C_recursive_PAV_rule/farkas-verify-multiprocessing.py:38 | the approval count behind the PAV score is the size of ballot ∩ committee |
| FarkasVerify.BetaTermsKeys | C_recursive_PAV_rule/farkas-verify-multiprocessing.py:34-41 | the beta loop of a step succeeds exactly when every listed swap has a beta entry; otherwise it raises on a missing key |
| FarkasVerify.BetaTermsValue | C_recursive_PAV_rule/farkas-verify-multiprocessing.py:34-41 | with all beta keys present, the beta loop adds the sum over swaps of beta times the PAV score gain |
| FarkasVerify.LhsValue | C_recursive_PAV_rule/farkas-verify-multiprocessing.py:29-46 | a ballot's lhs is alpha plus the weighted score gains of every step up to and including the first step whose T it prefers, minus that one step's gamma; later steps contribute nothing |
| FarkasVerify.StepValue | C_recursive_PAV_rule/farkas-verify-multiprocessing.py:34-41 | one step's beta loop adds exactly that step's row sum |
| FarkasVerify.BallotsPass | C_recursive_PAV_rule/farkas-verify-multiprocessing.py:26-48 | the ballot loop passes exactly when every ballot passes |
| FarkasVerify.GammaSumValue | C_recursive_PAV_rule/farkas-verify-multiprocessing.py:50 | the objective sum completes exactly when k > 0 for a nonempty history and every step has a gamma, and then equals the dual objective sum of |T_t|/k · gamma_t |
| FarkasVerify.FarkasPass | C_recursive_PAV_rule/farkas-verify-multiprocessing.py:20-50 | the check passes exactly when every ballot's lhs is computed and is ≥ 0, every gamma is present with k > 0, and alpha minus the dual objective is ≤ -1 |
| FarkasCheckComplete.GetContinuations | C_recursive_PAV_rule/farkas-check-complete.py:11-40 | the append loop over new committees returns exactly the list `FarkasCheckComplete.Continuations`, or the same error |
| FarkasCheckComplete.AppendSteps | C_recursive_PAV_rule/farkas-check-complete.py:37-38 | the inner loop appends the history extended by (new_committee, T) for each T, in order |
| FarkasCheckComplete.KeepCommitteesMember | C_recursive_PAV_rule/farkas-check-complete.py:27 | a new committee is kept exactly when its newcomers pass `is_wlog`; it is the sorted union of the past deviations and the newcomers |
| FarkasCheckComplete.KeepDeviationsMember | C_recursive_PAV_rule/farkas-check-complete.py:32-35 | a candidate T is kept exactly when it passes `is_wlog` and is not a subset of the new committee |
| FarkasCheckComplete.IsWlogIsChoice | C_recursive_PAV_rule/farkas-check-complete.py:26-27 | on the partition of `range(num_alts)`, `is_wlog` never fails for a tuple without repeats, and answers whether it is canonical |
| FarkasCheckComplete.NewcomersMember | C_recursive_PAV_rule/farkas-check-complete.py:21-27 | every newcomer tuple is increasing, has exactly places_to_fill members, and is drawn from the remaining candidates |
| FarkasCheckComplete.NewCommitteesMember | C_recursive_PAV_rule/farkas-check-complete.py:21-27 | a tuple is a new committee exactly when it is sorted, has k members, contains all past deviations, and its newcomers are canonical for the history's identifiable sets |
| FarkasCheckComplete.DeviationsMember | C_recursive_PAV_rule/farkas-check-complete.py:31-35 | a tuple is a possible deviation exactly when it is sorted, has 1..k alternatives, is canonical for the identifiable sets together with the new committee, and is not inside the new committee |
| FarkasCheckComplete.ExtensionsMember | C_recursive_PAV_rule/farkas-check-complete.py:29-38 | the loop's output holds exactly the one-step extensions by a listed committee and one of its possible deviations |
| FarkasCheckComplete.ContinuationsOk | C_recursive_PAV_rule/farkas-check-complete.py:21-24 | `get_continuations` fails exactly when places_to_fill = k - |past deviations| is negative, and only with that assertion |
| FarkasCheckComplete.ContinuationsMember | C_recursive_PAV_rule/farkas-check-complete.py:11-40 | a history is returned exactly when it is the input extended by one step whose committee and deviation are valid as above |
| FarkasCheckComplete.ContinuationShape | C_recursive_PAV_rule/farkas-check-complete.py:37-38 | every returned history is the input history plus exactly one step |
| FarkasCheckComplete.ContinuationsCount | C_recursive_PAV_rule/farkas-check-complete.py:11-40 | at most 2^n · k · 2^n continuations are returned, where n = num_alts |
| FarkasCheckComplete.PotentialShrinks | C_recursive_PAV_rule/farkas-check-complete.py:21-35 | every continuation has strictly fewer alternatives left outside its past deviations, since T is not inside a committee that holds them all |
| FarkasCheckComplete.EnqueueContinuations | C_recursive_PAV_rule/farkas-check-complete.py:52-57 | the loop queues the successful continuations in order; it fails exactly when some continuation is missing from info or is unsuccessful with no certificate, and then names the first such continuation in list order (every earlier one is recorded and, if unsuccessful, certified) |
| FarkasCheckComplete.SuccessfulMember | C_recursive_PAV_rule/farkas-check-complete.py:54-55 | a continuation is queued exactly when it is successful |
| FarkasCheckComplete.Visit | C_recursive_PAV_rule/farkas-check-complete.py:48-57 | one iteration either reports a true failure at a reachable history, or checks the popped history, queues only reachable histories, keeps every reachable history done or pending, and lowers the queue weight |
| FarkasCheckComplete.ExploredExtend | C_recursive_PAV_rule/farkas-check-complete.py:50-55 | a successful continuation of a reachable, uncertified history is itself reachable |
| FarkasCheckComplete.VisitedWeight | C_recursive_PAV_rule/farkas-check-complete.py:47-55 | replacing a history in the queue by its successful continuations lowers the queue weight, so the worklist terminates |
| FarkasCheckComplete.FailureRefutes | C_recursive_PAV_rule/farkas-check-complete.py:49-57 | a failed assertion at a reachable history means that the certificates are not complete |
| FarkasCheckComplete.Run | C_recursive_PAV_rule/farkas-check-complete.py:42-57 | `run` completes exactly when every history reachable from () through successful, uncertified histories is in info; for each such uncertified history its continuations can be computed, are all in info, and the unsuccessful ones carry a "farkas" entry. Otherwise the failure it reports holds at a reachable history |

## Left out

- `harmonic_number` (utility_functions.py:37-39) sums Python floats. The exact checker never calls it. Only the exact harmonic numbers `Harmonic` of the PAV score are modelled, to give meaning to the swap terms.
- `show` (utility_functions.py:12-13) only formats output.
- The `lru_cache` memoisation is a performance aid and does not change results.
- The multiprocessing `run` of farkas-verify-multiprocessing.py (lines 58-71) and both scripts' command-line drivers are not modelled. These are the `Pool`/`tqdm` fan-out, `pickle` loading, `sys.argv` parsing, file checks and printing. It is I/O and concurrency plumbing around `worker` and `run`.
- The `ballots` list and the certificates are parameters, not loaded from files.
- A_committee_size_7/pav-almost-swap-stable.py is not part of this model. It builds and solves a MILP with an external solver.
- The C scripts import `utility_functions` from their own directory. That copy is not part of this model; the shown A_committee_size_7/utility_functions.py stands in for it.
- gmpy2's `mpq` is modelled as Dafny's exact `real`, not as a library.
- The `KeyError` raised by a malformed record is not modelled: `Certificate` always has `alpha`, `beta` and `gamma` (`farkas["alpha"]`, `farkas["beta"]`, `farkas["gamma"]`, farkas-verify-multiprocessing.py:22-24), and `Record` always has `successful` (`info[new_history]["successful"]`, farkas-check-complete.py:54). Only missing keys inside `beta` and `gamma`, and missing histories in `info`, are modelled as failures.
- Python set iteration order is taken to be increasing. This is where `combinations(remaining_candidates, ...)` iterates a set and where `tuple(past_deviations | set(newcomers))` turns one into a tuple. The committees, taken as sets of alternatives, do not depend on this order. The element order inside each committee tuple does: it is part of every continuation history, and so of the `info` keys that `run` looks up. The model takes those tuples, and so the `info` keys, to be in increasing order.
- Generic `Increasing`/`NoDup` requirements on the inputs of lemmas stand for the fact that the scripts only pass tuples produced by `combinations`, `sorted` and `range`.
- FarkasVerify.LhsValue: the closed form assumes the committees of a history's steps are repeat-free, which holds for the committees `get_continuations` builds; for any input the lhs is still given step by step by the function `LhsFrom`.
- FarkasVerify.CheckFarkasForHistory: signs of `beta` and `gamma` are not checked, as in the code.
- FarkasCheckComplete.Run: when several assertions would fail, the contract does not say which one the depth-first order meets first. It states only that the reported one holds at a reachable history.
- FarkasVerify.Worker: where Python raises out of `worker` (a missing key, a zero division, a failed assertion), the model answers false.
- FarkasCheckComplete.Run: `run` pops from the right end of a `deque`. The queue is a sequence and takes its last element. The depth-first order is modelled, but no statement is made about it.
