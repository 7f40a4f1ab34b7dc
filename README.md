# Greedy teacher scheduling and quicksort kernels, modelled in Dafny

This project models two parts of a small Python homework repository.

**`create_schedule` (Task2.py).** Each teacher can teach a set of subjects.
The function tries to give every subject of a list to some teacher, one
round at a time:
- While subjects remain unassigned, a round scans all teachers. For each
  teacher it counts the unassigned subjects that teacher can teach.
- The teacher with the largest count wins. A tie goes to the strictly
  younger teacher; a remaining tie goes to the one listed first.
- The winner receives all of those subjects at once, and they leave the
  unassigned set.

The model is in `scheduling.dfy`:
- Teachers are identified by their position in the list. The dictionary
  `schedule` becomes a sequence of subject sets, one per position.
- `Initial` is the start state of Task2.py:25-26: one empty list per
  teacher and `set(subjects)` unassigned.
- The inner scan is the method `FindBestTeacher`, with its three variables.
  It is proved equal to the fold `Scan` / `SelectBest`, where `ScanStep` is
  one pass of the loop body of Task2.py:35-49. The rule `IsBestAmong`
  states the selection independently, and `SelectBestFollowsRule` links the
  two.
- The outer loop is the method `CreateSchedule`. It is proved equal to the
  fuel-bounded function `Run`, run from the initial state for
  `|set(subjects)|` rounds; `GreedySchedule` names that result.
- The promised properties are lemmas about `Run` and `GreedySchedule`:
  - each teacher gets only subjects it can teach, and no subject goes to two
    teachers;
  - the result is a partition of `set(subjects)` when every subject has a
    teacher;
  - the loop finishes when every subject has a teacher;
  - when the teacher list is non-empty and some subject has no teacher, that
    subject stays unassigned in every round and the loop never exits; with
    no teachers the function returns the empty schedule at once;
  - the tie-breaks behave as stated;
  - the reference data yields its exact result (`reference_schedule.dfy`).

**The quicksort kernels (Task1.py).** Both are the inner
`quicksort_recursive`, and both split the list three ways around a pivot.
They are modelled in `quicksort.dfy`:
- `ParsePivotChoice` reads `pivot_choice` as Task1.py:55-62 does, and
  `Classify` is the three-way comparison of Task1.py:69-74 that both
  partitions use.
- The deterministic kernel picks the first, last or middle element and
  partitions with a loop. It is a recursive method whose loop is proved
  against the function `Part`.
- The randomized kernel partitions with comprehensions. It is a recursive
  function, and the random index comes from a `draw` parameter.
- Both results are proved sorted and a permutation of the input.
- Since a sorted permutation is unique, the two kernels agree, whatever the
  pivot rule or the drawn indices.

`wrappers.dfy` holds the `Option` and `Result` types.

## Model

| member | source | states |
|---|---|---|
| Scheduling.SelectBest | Task2.py:30-49 | a round finds no best teacher exactly when the teacher list is empty, because the count starts at -1; otherwise the chosen index is a valid teacher position |
| Scheduling.ScanFindsBest | Task2.py:35-49 | the running scan over the first n teachers ends on a teacher with the largest count, youngest among equal counts, with every earlier teacher of that count strictly older; its max-count and youngest-age variables hold that teacher's count and age |
| Scheduling.SelectBestFollowsRule | Task2.py:35-49 | for a non-empty teacher list, the chosen teacher satisfies the selection rule |
| Scheduling.BestIsUnique | Task2.py:40-49 | at most one teacher satisfies the selection rule, so the rule determines the choice |
| Scheduling.FindBestTeacher | Task2.py:30-49 | the inner for-loop, updating best_teacher, max_uncovered_subjects and youngest_age step by step, returns the teacher the selection rule picks, and None exactly when there are no teachers |
| Scheduling.Assign | Task2.py:57-59 | a round removes from the unassigned set exactly the subjects the winner can teach, and adds exactly those to the winner's list; every other teacher's list is untouched |
| Scheduling.Run | Task2.py:29-59 | any number of rounds keeps one list per teacher and never adds to the unassigned set |
| Scheduling.InitialIsConsistent | Task2.py:25-26 | the start state (every teacher with an empty list, every subject unassigned) satisfies the between-rounds invariant |
| Scheduling.AssignKeepsListsApart | Task2.py:57-59 | after a round every list holds only teachable subjects of the input, none still open, and no two lists share a subject |
| Scheduling.AssignKeepsAccount | Task2.py:57-59 | after a round every subject that is no longer open is in some list |
| Scheduling.AssignRetiresServed | Task2.py:57-59 | after a round a teacher with a non-empty list can cover no open subject |
| Scheduling.AssignKeepsConsistent | Task2.py:57-59 | a round preserves the invariant: lists hold only teachable subjects of the input, lists are pairwise disjoint and disjoint from the unassigned set, every assigned subject is in some list, and a teacher that has subjects can cover nothing still open |
| Scheduling.RunKeepsConsistent | Task2.py:29-59 | any number of rounds preserves that invariant, coverable or not |
| Scheduling.BestMakesProgress | Task2.py:37-38 | when every open subject has a teacher, the chosen teacher covers at least one of them |
| Scheduling.WinnerChosenOnce | Task2.py:57-59 | under full coverage the winner of a round had an empty list before, and its list becomes exactly its coverage: each teacher receives subjects in at most one round |
| Scheduling.RoundShrinks | Task2.py:57-59 | under full coverage a round strictly shrinks the unassigned set and keeps the rest coverable |
| Scheduling.RunFinishes | Task2.py:29-59 | when every open subject has a teacher, at most as many rounds as open subjects empty the unassigned set |
| Scheduling.ActiveShrinks | Task2.py:57-59 | under full coverage a round lowers the number of teachers that can still cover something, because the winner can cover nothing afterwards |
| Scheduling.RunFinishesWithinActive | Task2.py:29-59 | when every open subject has a teacher, as many rounds as there are teachers still able to cover something suffice |
| Scheduling.RunFinishesWithinTeacherCount | Task2.py:29-59 | when every open subject has a teacher, at most as many rounds as there are teachers empty the unassigned set |
| Scheduling.StallsWhenNothingCoverable | Task2.py:43-59 | when no teacher can cover any open subject, a teacher is still chosen, with count 0, and the round leaves the state unchanged |
| Scheduling.UncoverableStaysUnassigned | Task2.py:29-59 | a subject no teacher can teach stays unassigned however many rounds run, and a teacher is still found in every round, so with a non-empty teacher list the loop never exits |
| Scheduling.ZeroBestLeavesUnteachable | Task2.py:43-54 | when the chosen teacher's count is 0, no teacher can teach any open subject |
| Scheduling.CoveringRoundKeepsUnteachable | Task2.py:57-59 | a round whose winner covers something shrinks the open set and never removes a subject nobody can teach |
| Scheduling.RunStoppingAtZero | Task2.py:51-54 | the loop with the stop its early-return comment describes (end when the best teacher can cover nothing) keeps one list per teacher |
| Scheduling.StoppingRunLeavesUnteachable | Task2.py:51-54 | the loop with a stop at count 0 reaches its stopping state within as many rounds as open subjects, leaving open exactly the subjects nobody can teach |
| Scheduling.StoppingRunAgrees | Task2.py:29-59 | when every subject has a teacher, the loop with the stop at count 0 computes the same state as the loop as written |
| Scheduling.CreateSchedule | Task2.py:14-61 | the while-loop that mutates the schedule and the unassigned set returns the greedy schedule, whether it exits by emptying the set or by the no-teacher return |
| Scheduling.LoopStep | Task2.py:29-59 | one pass of the while-body keeps the rest coverable, strictly shrinks the unassigned set, and leads to the same final state |
| Scheduling.GreedyScheduleEdgeCases | Task2.py:25-29 | the schedule has one list per teacher; with no subjects every list is empty; with no teachers the schedule is empty |
| Scheduling.GreedyScheduleIsValid | Task2.py:57-61 | each teacher's returned list contains only subjects from the input that the teacher can teach, and no subject appears in two lists |
| Scheduling.GreedyScheduleCoversAll | Task2.py:29-61 | when every subject has a teacher, every subject appears in some teacher's returned list |
| Scheduling.TieBreakByAge | Task2.py:47-49 | between equal counts the younger teacher wins, even when listed second |
| Scheduling.TieBreakByOrder | Task2.py:43-49 | between equal counts and equal ages the first teacher listed wins |
| ReferenceSchedule.ReferenceIsCoverable | Task2.py:68-98 | every subject of the reference data has a teacher |
| ReferenceSchedule.StartsFromState0 | Task2.py:25-26 | the reference run starts with six empty lists and all five subjects open |
| ReferenceSchedule.RoundOne | Task2.py:35-49 | in round 1 Шевченко (29) wins among the teachers covering two subjects |
| ReferenceSchedule.AssignOne | Task2.py:57-59 | round 1 gives Шевченко Biology and Chemistry |
| ReferenceSchedule.RoundTwo | Task2.py:35-49 | in round 2 Бондаренко (35) beats Іваненко (45) and Коваленко (50) |
| ReferenceSchedule.AssignTwo | Task2.py:57-59 | round 2 gives Бондаренко Physics and Computer Science |
| ReferenceSchedule.RoundThree | Task2.py:35-49 | in round 3 Іваненко (45) beats Коваленко (50) for Mathematics |
| ReferenceSchedule.AssignThree | Task2.py:57-59 | round 3 gives Іваненко Mathematics and leaves nothing open |
| ReferenceSchedule.StepOne | Task2.py:29-59 | the first pass of the loop on the reference data leads from the start state to the state after round 1 |
| ReferenceSchedule.StepTwo | Task2.py:29-59 | the second pass leads to the state after round 2 |
| ReferenceSchedule.StepThree | Task2.py:29-59 | the third pass leaves nothing open, and the loop ends there |
| ReferenceSchedule.ReferenceResult | Task2.py:68-101 | the reference schedule is exactly: Іваненко Mathematics, Шевченко Biology and Chemistry, Бондаренко Physics and Computer Science, the other three nothing |
| QuickSort.Part | Task1.py:30-32 | a comprehension part is no longer than the list and holds only elements of its side of the pivot |
| QuickSort.PartitionSplits | Task1.py:64-74 | every element lands in exactly one of left, middle and right: the three parts together are a permutation of the list, and their lengths sum to its length |
| QuickSort.PartsPermute | Task1.py:64-74 | the three parts together are a permutation of the list |
| QuickSort.PivotShrinks | Task1.py:28-33 | a pivot taken from the list makes the middle non-empty, so both recursive calls get strictly shorter lists |
| QuickSort.JoinSorted | Task1.py:33 | sorted left + middle + sorted right is a sorted permutation of the list |
| QuickSort.SortedPermutationUnique | Task1.py:25-33 | two sorted permutations of the same list are equal |
| QuickSort.PivotIndex | Task1.py:55-60 | first, last and middle (`len // 2`) are valid indices of a list of at least two elements |
| QuickSort.DeterministicKernel | Task1.py:50-76 | the deterministic kernel with its partition loop returns a sorted permutation of its input, and lists shorter than 2 unchanged |
| QuickSort.DeterministicQuickSort | Task1.py:41-62 | the pivot choice defaults to middle; it fails exactly when the pivot choice is not first, last or middle and the list has at least two elements; otherwise it returns a sorted permutation of a copy, shorter lists unchanged, equal to the randomized kernel's result for every valid draw |
| QuickSort.RandomizedKernel | Task1.py:25-33 | for any pivot indices within range, the randomized kernel returns a sorted permutation of its input, and lists shorter than 2 unchanged |
| QuickSort.RandomizedIgnoresDraw | Task1.py:28-33 | the randomized kernel's result does not depend on the indices drawn |
| QuickSort.RandomizedQuickSort | Task1.py:21-35 | sorting a copy of the array gives a sorted permutation of its contents, short arrays unchanged |

## Left out

- Timing (`time.time()`, elapsed seconds), random array generation, the benchmark loops, averages, printing and plotting in Task1.py. These are wall-clock I/O, floating point and UI. Both sort wrappers therefore return only the sorted list.
- `random.randint` is not modelled. The pivot index is the `draw` parameter: any function that gives an index of every list of length at least 2.
- The teachers' names, e-mail and `__repr__`, the error `print`, and the output section of Task2.py. The scheduler never reads them.
- The order of subjects inside each teacher's list. It comes from iterating a Python set, which has no specified order, so each list is a set.
- Teachers are keyed by position, not by object identity. The same teacher object given twice is one dictionary key in Python but two positions here.
- Ages and counts are unbounded integers. Python integers do not wrap, so nothing is lost.
- Scheduling.CreateSchedule: requires that there are no teachers or that every subject has a teacher. Otherwise the Python loop never ends (`UncoverableStaysUnassigned`, `StallsWhenNothingCoverable`). Run with fuel models that run for any number of rounds.
- Scheduling.CreateSchedule: states its result as `GreedySchedule`. Validity, coverage and termination are proved about `GreedySchedule` in separate lemmas, not repeated in the method's own contract.
- The early return at Task2.py:51-54 is commented as the case where no teacher can teach any remaining subject. Because `max_uncovered_subjects` starts at -1 (Task2.py:31), a teacher with count 0 still wins, so that return fires only for an empty teacher list. The main model follows the code as written; see "## Findings" for the stopping variant.
- The sort kernels are modelled on `int`. The Python code works on any mutually comparable values, but the callers here only pass integers.
- QuickSort.DeterministicKernel: returns a sorted list at any recursion depth. Python raises `RecursionError` beyond its recursion limit (about 1000 frames). An example is an already sorted list of more than about 1000 distinct values with pivot `"first"` or `"last"`, where each call removes one element (Task1.py:55-58, 76). The randomized kernel can hit the same limit on unlucky draws.

## Findings

| source | as written | input that shows it | evidently intended | confidence | as-written member | corrected member |
|---|---|---|---|---|---|---|
| Task2.py:31, 43-59 | `max_uncovered_subjects` starts at -1, so a teacher with count 0 is still chosen; the early return for "no teacher can teach any remaining subject" (Task2.py:51-54) fires only when the teacher list is empty, and a subject nobody can teach makes the `while` loop spin forever | subjects `["Math", "Art"]`, one teacher of age 40 who can teach `{"Math"}`: round 1 assigns Math, then every round picks that teacher with count 0 and removes nothing | stop when the best teacher can cover nothing and return the partial schedule, leaving exactly the unteachable subjects unassigned | high, not executed | Scheduling.UncoverableStaysUnassigned | Scheduling.StoppingRunLeavesUnteachable |
