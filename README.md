# Secret pairs: a verified model of the pairing engine

`secret_pairs.py` gives every participant of a gift exchange another
participant. The configuration holds:

- a list of `names`;
- one-way **forced** pairs (`force`: giver -> the person they must be given);
- one-way **blocked** pairs (`block`: giver -> one person or a list of persons they must not be given);
- two-way forced pairs and two-way blocked pairs, given as lists of two-element lists.

The engine works in three steps:

1. `load_data` checks every name against `names` and merges the two-way
   rules into `fixed` and `block`.
2. `gen_pairs` removes the forced targets from the pool of picks.
3. `gen_pairs_rec` runs a randomized depth-first search. It always takes
   the first still-unpaired forced participant (in the order of `fixed`),
   or else a random one. It tries every eligible pick (`eligible_for`) and
   blocks a pick in its own frame when the search below it fails.

The model has four modules:

- `Collections`: the list operations used (`list.remove`,
  distinctness, element sets).
- `Constraints`: the configuration, `check_name` and `load_data`. A
  Python dict with insertion order is `Dict(keys, entries)`, where
  `Ordered()` says the order lists each key once. `block` is a
  `map<string, set<string>>`. Every `sys.exit` and every `IndexError` of
  `load_data` is a `LoadError` value.
- `Eligibility`: `eligible_for`.
- `Pairing`: `gen_pairs` and `gen_pairs_rec`.
  - `random.choice` is an arbitrary choice (`:|`), so every property holds
    for every sequence of random choices.
  - The outcomes of the search are `Found`, `NoPairing` (the source's
    `None`), `NotInList` (the `ValueError` of `list.remove`),
    `EmptyChoice` (the `IndexError` of `random.choice` on an empty list)
    and `OutOfFuel` (see the finding). The `sys.exit` of `gen_pairs`
    after a failed search is the outcome `NoPairing`.

The search is proved correct against an independent reference.
`ValidPairing` says what a pairing must satisfy:

- everyone gets exactly one person;
- nobody is given twice;
- forced participants get their forced target;
- everyone else gets somebody allowed.

The search's invariant `Inv` and the relation `Extends(q, s)` relate each
search state to the complete pairings that agree with it. Three results
follow, for the code as written and for the corrected retry behaviour
alike:

- a pairing returned by the search is valid;
- a search that fails leaves no valid pairing;
- when a valid pairing exists, the search finds one.

What the as-written behaviour lacks is the converse of the second: when a
forced participant's branch fails, it never reports a failure and retries
forever instead (the model's `OutOfFuel`). Because forced participants
are served first, this happens only on configurations without a valid
pairing, and on every such configuration that forces a participant and
passes the removal of the forced targets ("## Findings").

`secret_pairs.py` has only the randomized backtracking search above;
other descriptions of the system also mention a Hamiltonian-cycle search
and an orchestrating layer, which the code does not contain, and the
model follows the code.

## Model

| member | source | states |
|---|---|---|
| Collections.RemoveFirst | secret_pairs.py:143 | `list.remove(x)` on a list that holds `x`: one element fewer, exactly one occurrence of `x` gone from the multiset |
| Collections.RemoveFirstDistinct | secret_pairs.py:189-191 | removing from a list without repetitions keeps it without repetitions and removes exactly that element from its set |
| Constraints.CheckName | secret_pairs.py:54-58 | no error exactly when the name is a participant; otherwise the error names the section when one is given, else "invalid participant" |
| Constraints.Put | secret_pairs.py:97-98 | `fixed[k] = v` updates the entry; a new key goes last in the order, an existing key keeps its place |
| Constraints.PutOrdered | secret_pairs.py:97-98 | the assignment keeps each key once in the dict's order |
| Constraints.Values | secret_pairs.py:142 | `fixed.values()` lists the targets in key order, one per key |
| Constraints.AddBlock | secret_pairs.py:109-112 | adding a block creates the giver's entry when missing and keeps every other key |
| Constraints.AddBlockOf | secret_pairs.py:208-211 | the giver's blocked set gains exactly the pick and nobody else's set changes |
| Constraints.Normalize | secret_pairs.py:78-80 | a single blocked name becomes a one-element set, a list becomes the set of its names |
| Constraints.CheckPair | secret_pairs.py:88-92 | a two-way rule passes exactly when it has two sides that are both participants; otherwise a side that is not a participant or the too-short rule is reported |
| Constraints.CheckForce | secret_pairs.py:69-71 | no error exactly when every forced key and value is a participant; an error names a non-participant that occurs in `force` |
| Constraints.NormalizeBlock | secret_pairs.py:76-82 | succeeds exactly when every blocked key and name is a participant; the keys are kept and each value is normalized to a set; an error names a non-participant from `block` |
| Constraints.AddTwowayForces | secret_pairs.py:87-98 | the loop computes the forward reference `ForcesFrom`: stop at the first bad rule or conflict, else write both directions |
| Constraints.AddTwowayBlocks | secret_pairs.py:102-112 | the loop computes the forward reference `BlocksFrom`: stop at the first bad rule, else block both directions |
| Constraints.ForcesLoop | secret_pairs.py:87-98 | the two-way-force loop succeeds exactly when every rule names two participants neither of which is already forced; on success it leaves all rules written in order; a failure is a genuine fault of the rules |
| Constraints.BlocksLoop | secret_pairs.py:102-112 | the two-way-block loop succeeds exactly when every rule names two participants; on success it leaves all rules added in order; a failure is a genuine fault |
| Constraints.ForcesFromOkValid | secret_pairs.py:87-98 | a successful two-way-force loop had only valid, unconflicting rules |
| Constraints.ForcesFromValidOk | secret_pairs.py:87-98 | valid, unconflicting rules make the two-way-force loop succeed |
| Constraints.ForcesFromFault | secret_pairs.py:91-95 | an error of the two-way-force loop is a non-participant side, a short rule, or a side forced earlier |
| Constraints.BlocksFromOk | secret_pairs.py:102-107 | the two-way-block loop succeeds exactly when every rule names two participants |
| Constraints.BlocksFromFault | secret_pairs.py:103-107 | an error of the two-way-block loop is a non-participant side or a short rule |
| Constraints.MembersMeaning | secret_pairs.py:87-89 | the participants the two-way rules mention are exactly the sides of the rules that have two sides |
| Constraints.PartnersMeaning | secret_pairs.py:103-112 | those two-way-blocked for `k` are exactly the other sides of the rules `k` is a side of |
| Constraints.MembersNamed | secret_pairs.py:91-92 | when every rule names participants, every member and partner of the rules is a participant |
| Constraints.TwowayForcedKeys | secret_pairs.py:97-98 | after the two-way forces the keys of `fixed` are the one-way keys plus both sides of each rule |
| Constraints.TwowayForcedOrder | secret_pairs.py:97-98 | without conflicts the order of `fixed` is the one-way keys followed by left, right of each rule in turn |
| Constraints.TwowayForcedOrdered | secret_pairs.py:97-98 | the order of `fixed` still lists each key once |
| Constraints.TwowayForcedKeeps | secret_pairs.py:94-98 | without conflicts a one-way force is never overwritten |
| Constraints.TwowayForcedBothWays | secret_pairs.py:97-98 | without conflicts every two-way rule ends up forced in both directions |
| Constraints.TwowayForcedNamed | secret_pairs.py:91-98 | every forced target is a participant |
| Constraints.TwowayForcedAll | secret_pairs.py:87-98 | together: keys, order, kept one-way forces, both directions, named targets |
| Constraints.TwowayBlockedKeys | secret_pairs.py:109-112 | after the two-way blocks the keys of `block` are the one-way keys plus every side of a rule |
| Constraints.TwowayBlockedPartners | secret_pairs.py:109-112 | each participant's blocked set is their one-way set plus their two-way partners |
| Constraints.TwowayBlockedAll | secret_pairs.py:102-112 | together: keys and blocked sets after all two-way blocks |
| Constraints.LoadedFromLoops | secret_pairs.py:62-114 | when the configuration is loadable, the loops' final values are exactly the stated result |
| Constraints.InitialBlocks | secret_pairs.py:76-112 | normalized one-way blocks plus the two-way blocks give the blocked sets of the configuration |
| Constraints.FixedWithinNames | secret_pairs.py:69-98 | after loading, every forced giver and target is a participant |
| Constraints.BlockWithinNames | secret_pairs.py:76-112 | after loading, every blocked giver and blocked person is a participant |
| Constraints.LoadData | secret_pairs.py:62-114 | `load_data` succeeds exactly when every check passes. On success: the names are unchanged, `fixed` holds the one-way forces plus both directions of every two-way force in dict order, `block` holds the normalized one-way blocks plus both directions of every two-way block, and everything mentioned is a participant. On failure the error is a genuine fault of the section it names |
| Eligibility.EligibleFor | secret_pairs.py:119-135 | a forced participant gets their forced target alone; anyone else gets the picks left that are neither themselves nor blocked for them, in order |
| Eligibility.LegalMembers | secret_pairs.py:126-133 | a person is offered to an unforced participant exactly when they are a pick left, not themselves and not blocked |
| Eligibility.LegalSubMultiset | secret_pairs.py:126-133 | nobody is offered more often than they occur among the picks left |
| Eligibility.OptionsMembers | secret_pairs.py:121-133 | membership in the options: the forced target, or else an allowed pick left |
| Eligibility.RetryDropsPick | secret_pairs.py:208-211 | for an unforced participant, blocking a failed pick removes exactly that pick from the next options |
| Eligibility.RetryKeepsForced | secret_pairs.py:121-122 | for a forced participant, blocking the failed pick changes nothing: `eligible_for` offers the forced target again (the mechanism of the finding, with lines 208-211) |
| Pairing.FirstFromNone | secret_pairs.py:163-166 | the priority scan finds nothing exactly when no key of `fixed` is unpaired |
| Pairing.FirstFromFound | secret_pairs.py:163-166 | what the priority scan finds is a forced giver who is unpaired |
| Pairing.FirstFromAt | secret_pairs.py:163-166 | the priority scan finds the first key of `fixed`, in dict order, that is unpaired |
| Pairing.Prioritize | secret_pairs.py:161-166 | `who` is the first unpaired key of `fixed` in dict order, or else the random choice |
| Pairing.WithoutValue | secret_pairs.py:141-143 | removing every forced target leaves the multiset of picks minus the targets |
| Pairing.WithoutMultiset | secret_pairs.py:141-143 | the removals all succeed exactly when each target occurs at least as often among the names as among the targets |
| Pairing.WithoutDistinctTargets | secret_pairs.py:141-143 | for names without repetitions the removals succeed exactly when the forced targets are distinct participants |
| Pairing.WithoutDistinct | secret_pairs.py:141-143 | what is left are the names less the targets, one per name, with no repetitions |
| Pairing.RemoveTargets | secret_pairs.py:141-143 | the loop of `remove` calls computes the reference `Without`; on failure it names the forced target whose removal raised: every removal before it succeeded and left no copy of it |
| Pairing.ChildLists | secret_pairs.py:187-191 | the child state's lists lack exactly `who` and the pick and have no repetitions |
| Pairing.ChildInjective | secret_pairs.py:187 | a pick that fits `who` gives nobody twice in the child's pairs |
| Pairing.InvChild | secret_pairs.py:182-200 | a pick that fits `who` carries the search invariant to the recursive call |
| Pairing.ExtendsUp | secret_pairs.py:200-203 | a completion of the child state is a completion of the parent that gives `who` the pick |
| Pairing.ExtendsDown | secret_pairs.py:200-211 | a completion of the parent is a completion of the child for the person it gives `who`, under the blocks added so far |
| Pairing.DeadPick | secret_pairs.py:205-211 | a pick whose child has no completion appears in no completion of the parent |
| Pairing.ForcedDead | secret_pairs.py:121-122 | if the child for a forced participant's target has no completion, the state has none |
| Pairing.Exhausted | secret_pairs.py:171-176 | when no options are left and every blocked pick is dead, the state has no completion |
| Pairing.BaseFound | secret_pairs.py:157-158 | at the base case the pairs found are a completion |
| Pairing.NoPicksLeft | secret_pairs.py:157 | under the invariant, no picks are left once nobody is unpaired |
| Pairing.ForcedFirst | secret_pairs.py:163-166 | an unpaired forced participant makes the priority scan find someone |
| Pairing.FirstFromRemove | secret_pairs.py:163-166 | with no forced participant unpaired, none is unpaired after the next pairing either |
| Pairing.ForcedCompletable | secret_pairs.py:121-122 | a completion of the state gives a forced participant their target, so it also completes the child for that target |
| Pairing.FoundDecides | secret_pairs.py:200-203 | a recursive result that is not a failure passes a completable state's success up to the caller |
| Pairing.GenPairsRec | secret_pairs.py:155-211 | under the invariant: `Found` pairs complete the state, `NoPairing` means no completion exists, and a state with a completion always yields `Found`, in either mode. With no forced participant unpaired it never runs out of fuel, and in the corrected mode it never does. In the as-written mode a forced `who` never gives `NoPairing`: it retries the same target |
| Pairing.ForcedTargetsDistinct | secret_pairs.py:141-143 | when the removals succeed, distinct forced givers have distinct targets |
| Pairing.StartInv | secret_pairs.py:140-145 | the first call of the search satisfies its invariant |
| Pairing.StartExtendsValid | secret_pairs.py:145 | a completion of the first state is a valid pairing |
| Pairing.ValidStartExtends | secret_pairs.py:145 | every valid pairing is a completion of the first state |
| Pairing.StartAnswers | secret_pairs.py:145-147 | the search's answer from the first state is a valid pairing, or proof that none exists, or out of fuel |
| Pairing.ValidPairingOnto | secret_pairs.py:139-148 | a valid pairing is a bijection: every participant is given to someone |
| Pairing.ValidTargetsRemovable | secret_pairs.py:141-143 | the forced targets of a valid pairing are distinct participants, so all can be removed |
| Pairing.PairingTargetsRemovable | secret_pairs.py:141-143 | if any valid pairing exists, the removals of `gen_pairs` do not raise |
| Pairing.StartCompletable | secret_pairs.py:145 | if any valid pairing exists, the first state of the search has a completion |
| Pairing.GenPairs | secret_pairs.py:139-148 | `gen_pairs` fails on `remove` exactly when the forced targets cannot all be taken from `names`, and then names the first target whose removal raises. For participants without repetitions it returns a valid pairing, reports `NoPairing` only when no valid pairing exists, and returns a pairing whenever one exists, in either mode. The corrected mode always terminates. The as-written mode reports `NoPairing` only when no forced giver is a participant |
| Pairing.DemoHasNoPairing | secret_pairs.py:119-122 | the configuration of the finding admits no valid pairing |
| Pairing.DemoStarts | secret_pairs.py:140-143 | the configuration of the finding reaches the search |
| Pairing.DemoAsWritten | secret_pairs.py:168-211 | as written, the search on that configuration never ends (it runs out of any fuel) |
| Pairing.DemoCorrected | secret_pairs.py:168-211 | corrected, the search on that configuration returns `NoPairing` |

## Left out

- `main`, the command line, reading the JSON file, printing the pairs and the `_debug` prints: these are I/O.
- The base64 secrecy padding (`BASE64` and its use in `main`) is output formatting and is not part of this model.
- JSON values of the wrong shape are not modelled: a missing key, a non-string name, or a non-list section. The model types the configuration instead. Two-way rules shorter than two entries are modelled (`ShortPair`, the source's `IndexError`).
- Error messages are modelled as `LoadError` values, not as the text `sys.exit` prints.
- `random.choice` is an arbitrary choice, not a uniform distribution. The model proves nothing about the distribution of pairings.
- `Pairing.GenPairsRec` and `Pairing.GenPairs` take a `fuel` bound on the retries of a forced participant in the as-written mode. `OutOfFuel` stands for the source looping forever; fuel does not limit anything else.
- Constraints.LoadData requires both dicts to list each key once in their order (`Ordered()`). This describes how a Python dict is represented, not a demand the source makes of its callers.
- Pairing.GenPairsRec requires `fixed` to be well formed in the same sense, for the same reason.
- Pairing.GenPairs states validity and completeness only for `names` without repetitions (`Setup`). The source does not check this, and with repeated names a "pairing" is not a function of the participants.
- Pairing.GenPairsRec states its correctness under the search invariant `Inv` only. The first call establishes the invariant (`Pairing.StartInv`); the source itself calls the search only from `gen_pairs`.
- The insertion order of the returned `pairs` dict is not modelled: the pairs are a `map`.
- `load_data` updates the caller's `data["force"]` and `data["block"]` in place (lines 80, 97-98 and 109-112) and returns those same dicts. The model computes new values, so it does not capture that the caller's parsed data is changed, nor the aliasing between it and the result.
- `gen_pairs` and `gen_pairs_rec` work on copies (`.copy()` and `deepcopy`, lines 140-141, 145, 182-184 and 200). The model's values capture that their callers' data is never changed, but not aliasing.
- Python's recursion limit is not modelled: `gen_pairs_rec` takes one stack frame per participant, so the source raises `RecursionError` at around a thousand participants. The model has no depth bound.

## Findings

| source | as written | input that shows it | evidently intended | confidence | as-written member | corrected member |
|---|---|---|---|---|---|---|
| secret_pairs.py:168-211 | when `who` is forced, `eligible_for` returns the forced target whatever `block` says (lines 121-122). So after the child search fails, blocking the pick changes nothing (`Eligibility.RetryKeepsForced`) and the `while True` loop retries the same pick forever. Since a valid pairing is always found when one exists (`Pairing.GenPairs`), the search hangs only on configurations without a valid pairing, and on every such configuration that forces a participant and passes the removals of lines 141-143 | `names = ["A", "B"]`, `force = {"A": "B"}`, `block = {"B": ["A"]}`: B may only be given A, who is forced to B, so no pairing exists | `gen_pairs_rec` returns `None` to its caller once the forced target has failed, and `gen_pairs` reports "Pair generation failed" | not executed | Pairing.DemoAsWritten | Pairing.DemoCorrected |
