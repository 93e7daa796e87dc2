# One-sided class model: the exchange step

This project models `GoogleObjectiveFunction`, the engine of one pass of
exchange word clustering under the one-sided class model of Uszkoreit and
Brants (2008). Every vocabulary word `w` belongs to a class. For each class
`c` the engine keeps two counts:

- `N(c)`, the number of words in `c`;
- `n(c, h)`, the number of occurrences of the n-gram history `h` summed
  over the words of `c`.

The objective is

    J = sum over (c, h) of n(c, h) ln n(c, h)  -  sum over c of N(c) ln N(c)

The engine copies the clusterer input into working tables and computes `J`
from the input tables. Then `cluster()` visits the vocabulary once. For
each word it does four things:

1. It computes the objective with the word taken out of its class
   (`objectiveAfterRemoving`).
2. It offers every other class at that value plus the change of joining
   the class.
3. It keeps the first strictly best candidate.
4. It moves the word if that candidate is not the word's own class
   (`move`), updating the tables and the running objective term by term.

The model is imperative, like the source. `GoogleObjective.GoogleObjectiveFunction`
is a class with the source's fields:

- `objValue` is the running objective;
- `localClassCount` and `localClassHistoryCount` are maps the methods
  reassign;
- `localWordToClass` is written once by the constructor and never again;
- a ghost field `assignment` records the partition the counters describe.

Every loop of the source is a `while` loop with invariants. Each loop is
proved against value-level definitions:

- `Counts`: the data, the counter accessors (a missing key reads as 0), and
  what it means for the tables to describe an assignment.
- `Sums`: sums over finite key sets, independent of enumeration order.
- `ClassObjective`: the objective recomputed from scratch and the algebra
  of taking a word out of a class and putting it into one.
- `CandidateScan`: the strict arg-max scan over the classes.
- `Exchange`: the choice and the move stated on values.

The central invariant, `GoogleObjectiveFunction.Valid`, says three things:

- the counters describe `assignment`;
- `objValue` equals `J` recomputed from the counters;
- the word map is the input's.

The constructor establishes it when the input satisfies
`Counts.Consistent`. That means three things:

- its tables describe the input assignment;
- its tables store no zero entry;
- every history listed for a word has a positive count.

Every step keeps the invariant. Separately, `objValue` never decreases over
a pass, because of the strict scan: a word moves only when the move strictly
raises the objective (`Exchange.ChoiceOutcome`, and `Exchange.PassImproves`
for the pass on values).
`Cluster` also states its final state exactly: the tables and the assignment
are those of `Exchange.PassOver`, the pass on values. In that pass each word,
in vocabulary order, sees the moves of the words before it. The word takes
the class that the scan over the recomputed objectives chooses.

`n ln n` is not computed. The engine is given a function `nLogN` on
counts with `nLogN(0) == 0`.

- The source guards the terms that can be zero during a pass with `> 0`
  (:79, :88, :128, :135, :146, :153, :179, :188). Those guards implement
  that convention.
- The other terms are not guarded (:49, :55, :85, :94, :127, :138, :145,
  :156, :177, :186).
  - At :94 and :156 the count has just been incremented, so it is at
    least 1.
  - The other counts are positive when three things hold: the input
    tables store no zero entry, every history listed for a word has a
    positive count, and the asserted conditions hold. The invariant
    provides the asserted conditions. The first two requirements are part
    of `Counts.Consistent`.

## Model

| member | source | states |
|---|---|---|
| GoogleObjective.GoogleObjectiveFunction.constructor | src-research/edu/stanford/nlp/mt/wordcls/GoogleObjectiveFunction.java:27-57 | The word map is the input's map restricted to the vocabulary, and agrees with the assignment for every vocabulary word. The counters are the initial tables: each class that holds a word has its number of words and the input's history row. `objValue` is `J` over the input tables. On a consistent input the engine invariant holds. |
| GoogleObjective.SetupDeltaStructures | src-research/edu/stanford/nlp/mt/wordcls/GoogleObjectiveFunction.java:28-40 | The loop over the vocabulary yields exactly two things. The word map is the input's map restricted to the vocabulary. The tables count one per word in its class and carry the input's history row for every class that holds a word. |
| GoogleObjective.FirstSummation | src-research/edu/stanford/nlp/mt/wordcls/GoogleObjectiveFunction.java:44-51 | The nested loop accumulates the first summation of `J` over every (class, history) entry, whatever order the keys are visited in. |
| GoogleObjective.RowSummation | src-research/edu/stanford/nlp/mt/wordcls/GoogleObjectiveFunction.java:46-50 | The inner loop accumulates the sum of n ln n over one row. |
| GoogleObjective.SecondSummation | src-research/edu/stanford/nlp/mt/wordcls/GoogleObjectiveFunction.java:52-56 | The loop accumulates the second summation of `J` over every class count. |
| Counts.InitialTablesDescribe | src-research/edu/stanford/nlp/mt/wordcls/GoogleObjectiveFunction.java:33-39 | On a consistent input, the tables the constructor builds count the words of each class and sum the history counts of each class's words. |
| ClassObjective.InitialObjectiveAgrees | src-research/edu/stanford/nlp/mt/wordcls/GoogleObjectiveFunction.java:42-56 | On a consistent input, `J` over the input tables (what the constructor sums) equals `J` over the working tables it builds. So the running objective starts equal to the recomputed one. |
| GoogleObjective.GoogleObjectiveFunction.Cluster | src-research/edu/stanford/nlp/mt/wordcls/GoogleObjectiveFunction.java:59-108 | After one pass the tables and the assignment are exactly those of the pass on values over the vocabulary in order, from the tables and assignment at the start. The pass keeps the engine invariant and never lowers `objValue`. It returns the word map, the class counter and the history table. The word map returned is the input's map restricted to the vocabulary, because moves do not update it. |
| Exchange.PassAdvance | src-research/edu/stanford/nlp/mt/wordcls/GoogleObjectiveFunction.java:61-104 | Placing the word at position i by the scan over the recomputed placements, and moving the tables when the chosen class is another one, extends the pass over the first i words to the first i + 1 words. |
| Exchange.PassImproves | src-research/edu/stanford/nlp/mt/wordcls/GoogleObjectiveFunction.java:61-106 | The pass on values over any sequence of words never lowers `J`, with no assumption about the tables. |
| Counts.LaterWordsKept | src-research/edu/stanford/nlp/mt/wordcls/GoogleObjectiveFunction.java:61-62 | Moving the word at position i leaves every later word's class in the assignment equal to its entry in the word map. So the class read for each word is still the one it is counted in. |
| GoogleObjective.GoogleObjectiveFunction.ExchangeWord | src-research/edu/stanford/nlp/mt/wordcls/GoogleObjectiveFunction.java:61-106 | The choice equals the scan over the objectives recomputed for every placement of the word. After the step, `objValue == maxObjectiveValue`, which is the commented-out assertion. `objValue` does not fall. The tables are the moved tables exactly when the word moves, and the invariant holds. |
| GoogleObjective.GoogleObjectiveFunction.ChooseClass | src-research/edu/stanford/nlp/mt/wordcls/GoogleObjectiveFunction.java:62-100 | The choice changes nothing and equals the scan over the recomputed placements. Staying keeps the value at `objValue`. A move is chosen only at a value strictly above `objValue`, and that value equals `J` of the moved tables. |
| GoogleObjective.GoogleObjectiveFunction.ObjectiveAfterRemoving | src-research/edu/stanford/nlp/mt/wordcls/GoogleObjectiveFunction.java:167-193 | The method is read-only and exact: the result is `objValue` plus the change from `J` of the tables to `J` of the tables with the word taken out of its class. |
| ClassObjective.LeaveObjective | src-research/edu/stanford/nlp/mt/wordcls/GoogleObjectiveFunction.java:171-191 | Taking the word out of class c changes `J` by the replaced history terms of c's row plus the replaced term of N(c). |
| ClassObjective.WithdrawGain | src-research/edu/stanford/nlp/mt/wordcls/GoogleObjectiveFunction.java:171-183 | Subtracting the word's counts over any set of histories changes a row's sum by the sum of the per-history term changes, in any order. |
| GoogleObjective.GoogleObjectiveFunction.JoinDelta | src-research/edu/stanford/nlp/mt/wordcls/GoogleObjectiveFunction.java:74-94 | The candidate delta is exactly the change of `J` from putting the word into class c. |
| ClassObjective.JoinObjective | src-research/edu/stanford/nlp/mt/wordcls/GoogleObjectiveFunction.java:74-94 | Putting the word into class c changes `J` by the replaced history terms of c's row plus the replaced term of N(c). |
| ClassObjective.DepositGain | src-research/edu/stanford/nlp/mt/wordcls/GoogleObjectiveFunction.java:76-86 | Adding the word's counts over any set of histories changes a row's sum by the sum of the per-history term changes, in any order. |
| GoogleObjective.GoogleObjectiveFunction.BestClass | src-research/edu/stanford/nlp/mt/wordcls/GoogleObjectiveFunction.java:72-100 | The loop over the classes is the strict arg-max scan. It starts from the current class at `objValue`, skips the current class, and replaces the best only on a strictly larger `reducedObjValue + objDelta`. |
| ClassObjective.CandidateSplits | src-research/edu/stanford/nlp/mt/wordcls/GoogleObjectiveFunction.java:68-96 | The objective after moving the word to c is the reduced objective plus the change of joining c, where that change is computed on the tables that still hold the word. |
| Exchange.CandidateIsPlacement | src-research/edu/stanford/nlp/mt/wordcls/GoogleObjectiveFunction.java:96-98 | For one class c other than the current one, the offered value `reducedObjValue + objDelta` equals `J` recomputed after moving the word to c. |
| Exchange.CandidatesArePlacements | src-research/edu/stanford/nlp/mt/wordcls/GoogleObjectiveFunction.java:72-99 | The same holds for every class other than the current one. |
| CandidateScan.ScanAgree | src-research/edu/stanford/nlp/mt/wordcls/GoogleObjectiveFunction.java:72-73 | The current class is never a candidate, so the scan does not depend on the value offered for it. |
| CandidateScan.ScanImproves | src-research/edu/stanford/nlp/mt/wordcls/GoogleObjectiveFunction.java:63-99 | The best value never falls below the start. The best class stays the current one only at the starting value; otherwise it was offered at a strictly larger value. |
| CandidateScan.ScanIsMaximal | src-research/edu/stanford/nlp/mt/wordcls/GoogleObjectiveFunction.java:96-99 | No offered class other than the current one has a larger value than the result. |
| CandidateScan.ScanIsEarliest | src-research/edu/stanford/nlp/mt/wordcls/GoogleObjectiveFunction.java:96-99 | Ties keep the earlier class: every class offered before the winner has a strictly smaller value. |
| Exchange.ExchangeChoice | src-research/edu/stanford/nlp/mt/wordcls/GoogleObjectiveFunction.java:63-104 | Over recomputed objectives, the choice has five properties. The objective never falls. The word stays only at the current objective. A move lands on an offered class and raises `J` strictly. No offered class gives a larger `J`. Of equally good classes, the first offered wins. |
| Exchange.ChoiceOutcome | src-research/edu/stanford/nlp/mt/wordcls/GoogleObjectiveFunction.java:62-100 | The scan over the incremental candidate values equals the scan over the recomputed placements. Staying keeps the objective; a move raises it strictly, to `J` of the moved tables. |
| GoogleObjective.GoogleObjectiveFunction.Settle | src-research/edu/stanford/nlp/mt/wordcls/GoogleObjectiveFunction.java:101-104 | The final move is made only when the chosen class differs from the current one. The invariant is kept. The tables are unchanged or moved, and `objValue` changes by exactly the change of `J`. |
| GoogleObjective.GoogleObjectiveFunction.Move | src-research/edu/stanford/nlp/mt/wordcls/GoogleObjectiveFunction.java:117-157 | The new tables are exactly the old tables with the word moved from `fromClass` to `toClass`, so nothing else changes. `objValue` changes by exactly the change of `J`, and the word's class in the assignment is `toClass`. |
| GoogleObjective.GoogleObjectiveFunction.UpdateFirstTerm | src-research/edu/stanford/nlp/mt/wordcls/GoogleObjectiveFunction.java:118-139 | Exactly two rows change: the source row loses the word's counts and the destination row gains them. `objValue` changes by the sum of the term changes of both rows. |
| GoogleObjective.ShiftHistories | src-research/edu/stanford/nlp/mt/wordcls/GoogleObjectiveFunction.java:122-139 | The loop over the word's histories ends with the rows withdrawn and deposited over all of them. The running value changes by the summed term changes, in any visiting order. |
| GoogleObjective.GoogleObjectiveFunction.UpdateSecondTerm | src-research/edu/stanford/nlp/mt/wordcls/GoogleObjectiveFunction.java:141-156 | Exactly two class counts change, by -1 and +1. `objValue` changes by the two replaced class terms. |
| ClassObjective.MovedTables | src-research/edu/stanford/nlp/mt/wordcls/GoogleObjectiveFunction.java:118-152 | A move is two row updates and two count updates. |
| ClassObjective.MovedObjective | src-research/edu/stanford/nlp/mt/wordcls/GoogleObjectiveFunction.java:117-157 | A move changes `J` by the gain of leaving `fromClass` plus the gain of joining `toClass`, both read off the tables before the move. |
| ClassObjective.MoveApplied | src-research/edu/stanford/nlp/mt/wordcls/GoogleObjectiveFunction.java:117-157 | Rows and counts updated as `move` updates them are the moved tables. A value updated by those gains changes by exactly the change of `J`. |
| ClassObjective.MoveEffect | src-research/edu/stanford/nlp/mt/wordcls/GoogleObjectiveFunction.java:131-152 | For every history h, `n(from, h)` drops and `n(to, h)` rises by the word's count of h. `N(from)` drops and `N(to)` rises by one. Every other entry is unchanged. |
| ClassObjective.MoveConserves | src-research/edu/stanford/nlp/mt/wordcls/GoogleObjectiveFunction.java:131-152 | A move conserves `n(from, h) + n(to, h)` for every h, and `N(from) + N(to)`. |
| Counts.MemberBounds | src-research/edu/stanford/nlp/mt/wordcls/GoogleObjectiveFunction.java:173-175 | A word's class holds at least one word and at least the word's own count of every history. |
| Exchange.DescribedCanLeave | src-research/edu/stanford/nlp/mt/wordcls/GoogleObjectiveFunction.java:124-143 | In tables that describe the assignment, the asserted conditions hold for every vocabulary word's class: each history count is positive and at least the word's count, and the class count is positive. |
| Counts.ReassignShifts | src-research/edu/stanford/nlp/mt/wordcls/GoogleObjectiveFunction.java:117-157 | Reassigning one word moves one word and its history counts from its old class to the new one, and leaves every other class's totals unchanged. |
| Exchange.MovedDescribes | src-research/edu/stanford/nlp/mt/wordcls/GoogleObjectiveFunction.java:117-157 | The moved tables describe the assignment with the word in its new class. |
| Exchange.EngineMove | src-research/edu/stanford/nlp/mt/wordcls/GoogleObjectiveFunction.java:101-104 | Moving a vocabulary word keeps the engine invariant, with the objective of the moved tables as the running value. |

## Left out

- Floating point: `Math.log` and `double` arithmetic are replaced by the
  given function `nLogN` over exact reals with `nLogN(0) == 0`. Counts are
  `nat`. Rounding is not modelled.
- `0 * Math.log(0)` is NaN in the source.
  - An input table with a zero entry makes the constructor's sums (:47-49,
    :53-55) NaN. The running objective then stays NaN, every comparison at
    :96 is false, and the pass moves no word. The model reads the term as 0
    and does move words.
  - Such an input is outside `Counts.Consistent`, which requires the input
    tables to store no zero entry. So no invariant, and no agreement with
    the source, is claimed for it. A class listed in the class counter with
    no word is the usual case.
  - A pass itself leaves zero entries in the tables it returns: `setCount`
    at :133 and `decrementCount` at :149 keep the key. Output handed back
    as the next input therefore falls under the previous point. The
    clustering driver is not part of this model.
  - A class count of zero in `objectiveAfterRemoving` (:184-186) would also
    give NaN. In the engine it cannot occur (see the next line).
- GoogleObjective.GoogleObjectiveFunction.ObjectiveAfterRemoving: it also
  requires the class count of the word's class to be positive. The source
  asserts this only in `move` (:143), but the count cannot drop to -1 in
  `nat`, and in the engine the class of a vocabulary word is never empty.
- Java `assert`s (:124, :143, :173, :175) are preconditions. The asserted
  conditions are proved to hold at every call in the pass.
- Boxed `Integer` comparisons with `==` and `!=` (:73, :102) are value
  equality on class ids.
- Hash-set and hash-map iteration orders are fixed sequences. Those orders
  are the vocabulary, the key set of the class counter, and the key sets
  enumerated inside the loops. The vocabulary and the classes are fixed
  `seq`s in the input. Inner loops pick keys with `:|`, and their results
  are proved not to depend on the order.
- `ClustererInput`, `ClustererOutput`, `NgramHistory`, `Counter` and
  `TwoDimensionalCounter` are maps and sequences, not the library classes.
  Histories are compared by value.
- Rows are shared in the source. `getCounter` in `move` (:118-119) returns
  rows of the table that `setCount` changes in place. The model reads the
  two rows, updates copies, and writes both back.
- Empty rows in the working table: `getCounter` adds an empty row when the
  key is missing. The model does this in `move` (:118-119), but not in the
  candidate scan (:75). The source leaves an empty row in
  `localClassHistoryCount` for every offered class that had none, so its
  output's class/history table has keys, with empty rows, that the
  model's lacks. Empty rows add nothing to `J`.
- Empty rows in the input tables: the same `getCounter` calls add empty
  rows to `input.classHistoryCount` (:38, for a class with no row) and to
  `input.historyCount` (:65, :120, :169, for a word with no histories).
  The model's input is an immutable value and gains no keys. Apart from
  these empty rows the source does not write the input tables; the
  constructor copies each row it keeps (:37-38).
- GoogleObjective.GoogleObjectiveFunction.constructor: it requires
  `Counts.WellFormed`. Part of that is that every vocabulary word has a
  class in `wordToClass`. The source throws a `NullPointerException` when
  unboxing at :34 for a word without one. That error path is not modelled.
- The constructor builds the tables in locals and assigns the fields at the
  end. The source fills the fields directly.
- Method split: the body of `cluster()` for one word and the two halves of
  `move` are split into separate methods (ChooseClass, Settle,
  UpdateFirstTerm, UpdateSecondTerm, ShiftHistories, JoinDelta). The
  constructor's loops are SetupDeltaStructures and the summations. The
  order of updates is the source's.
- UpdateFirstTerm: the running objective is accumulated in a local
  (ShiftHistories) and stored once, not updated in the field per history.
  The final value is the same.
- GoogleObjective.GoogleObjectiveFunction.Cluster: it requires the
  assignment the counters describe to agree with the word map. A fresh
  engine meets this (constructor postcondition). A second pass on the same
  engine would read stale classes from the never-updated word map, so the
  model does not cover it.
- GoogleObjective.GoogleObjectiveFunction.ExchangeWord: the strict increase
  on a move is stated on ChooseClass and Exchange.ChoiceOutcome, not
  repeated here. ExchangeWord ties the result to them through
  `objValue == maxObjectiveValue` and the scan.
- `move` (:117-157) does not update `localWordToClass`. The model follows
  the code and keeps the moved partition only in the ghost `assignment`.
- The engine invariant needs the input to satisfy `Counts.Consistent`,
  which the source never checks. Three things must hold:
  - the input tables describe the input assignment;
  - every history listed for a vocabulary word has a positive count, which
    keeps :85 and :138 away from zero;
  - the input tables store no zero entry.

  On an input that fails these, the constructor still computes what the
  source computes, but no invariant is claimed.
- The rest of the repository is not part of this model: the clustering
  driver, the language-model featurizers and tools, and the tree readers.
