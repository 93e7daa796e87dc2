/** The exchange step of the one-sided class model of Uszkoreit and Brants
    (2008): working copies of the class tables seeded from a clusterer
    input, a running objective kept equal to the objective recomputed from
    those tables, and one pass that offers every vocabulary word the class
    that raises the objective most. */
module GoogleObjective {
  import opened Sums
  import opened Counts
  import opened ClassObjective
  import opened CandidateScan
  import opened Exchange

  class GoogleObjectiveFunction {
    var objValue: real

    const input: ClustererInput
    /** The term n ln n used by the objective. */
    const nLogN: NLogN
    /** The class of each vocabulary word as the input gives it. It is
        filled by the constructor and never changed afterwards. */
    const localWordToClass: map<Word, ClassId>
    var localClassCount: map<ClassId, nat>
    var localClassHistoryCount: map<ClassId, HistoryCounter>

    /** The class each word is counted in. A move updates the counters but
        not localWordToClass, so after a move the two differ; this is the
        assignment the counters describe. */
    ghost var assignment: map<Word, ClassId>

    /** The working tables. */
    ghost function Current(): Tables
      reads this
    {
      Tables(localClassHistoryCount, localClassCount)
    }

    /** The engine invariant: the counters describe `assignment` over the
        vocabulary, and the running objective equals the objective
        recomputed from the counters. */
    ghost predicate Valid()
      reads this
    {
      Engine(input, nLogN, localWordToClass, Current(), assignment, objValue)
    }

    /** Copies the assignment and the class tables of every class that holds
        a vocabulary word, then computes the objective from the input tables. */
    constructor (input: ClustererInput, nLogN: NLogN)
      requires WellFormed(input)
      ensures this.input == input && this.nLogN == nLogN
      ensures localWordToClass == Restrict(input.vocab, input.wordToClass)
      ensures Current() == InitialTables(input)
      ensures assignment == input.wordToClass
      ensures objValue == Objective(nLogN, Tables(input.classHistoryCount, input.classCount))
      ensures Consistent(input) ==> Valid()
      ensures forall w :: w in input.vocab ==> assignment[w] == localWordToClass[w]
    {
      // The working copies (built in locals, since the fields are set only
      // once the first phase of the constructor ends)
      var wordToClass, classCount, classHistoryCount := SetupDeltaStructures(input);

      // The starting objective, summed over the input tables
      var value := 0.0;
      // Entries of the class/history table
      var first := FirstSummation(nLogN, input.classHistoryCount);
      value := value + first;
      // Class counts
      var second := SecondSummation(nLogN, input.classCount);
      value := value - second;

      this.input := input;
      this.nLogN := nLogN;
      localWordToClass := wordToClass;
      localClassCount := classCount;
      localClassHistoryCount := classHistoryCount;
      assignment := input.wordToClass;
      objValue := value;
      new;
      if Consistent(input) {
        InitialTablesDescribe(input);
        InitialObjectiveAgrees(nLogN, input);
      }
    }

    /** One pass of the exchange algorithm: every vocabulary word, in
        order, is offered every class and moved to the best one. The word
        map handed back is the one the constructor copied: moves do not
        update it. */
    method Cluster() returns (output: ClustererOutput)
      requires Valid()
      requires forall w :: w in input.vocab ==> assignment[w] == localWordToClass[w]
      modifies this`objValue, this`localClassHistoryCount, this`localClassCount, this`assignment
      ensures Valid()
      ensures objValue >= old(objValue)
      ensures output == ClustererOutput(localWordToClass, localClassCount, localClassHistoryCount)
      ensures output.wordToClass == Restrict(input.vocab, input.wordToClass)
      ensures (Current(), assignment)
              == PassOver(nLogN, input, localWordToClass, (old(Current()), old(assignment)), input.vocab)
    {
      var i := 0;
      while i < |input.vocab|
        invariant 0 <= i <= |input.vocab|
        invariant Valid()
        invariant objValue >= old(objValue)
        invariant forall k :: i <= k < |input.vocab| ==>
                    input.vocab[k] in assignment && input.vocab[k] in localWordToClass
                    && assignment[input.vocab[k]] == localWordToClass[input.vocab[k]]
        invariant (Current(), assignment)
                  == PassOver(nLogN, input, localWordToClass, (old(Current()), old(assignment)), input.vocab[..i])
      {
        var word := input.vocab[i];
        DescribedCanLeave(Current(), input.vocab, assignment, input.historyCount, word);
        ghost var before, t0, v0 := assignment, Current(), objValue;
        var argMax, maxObjectiveValue := ExchangeWord(word);
        LaterWordsKept(input.vocab, i, before, localWordToClass, argMax);
        PassAdvance(nLogN, input, localWordToClass, (old(Current()), old(assignment)), i, word,
                    Profile(input.historyCount, word), t0, before, v0, (argMax, maxObjectiveValue),
                    Current(), assignment);
        i := i + 1;
      }
      assert input.vocab[..i] == input.vocab;
      output := ClustererOutput(localWordToClass, localClassCount, localClassHistoryCount);
    }

    /** The body of the pass for one word. Its class is read from the word
        map, which still holds it because each word is visited once. The
        best class is chosen, and the word moves when it is not its own. */
    method ExchangeWord(word: Word) returns (argMax: ClassId, maxObjectiveValue: real)
      requires Valid() && word in input.vocab
      requires assignment[word] == localWordToClass[word]
      requires CanLeave(Current(), localWordToClass[word], Profile(input.historyCount, word))
      modifies this`objValue, this`localClassHistoryCount, this`localClassCount, this`assignment
      ensures Valid()
      ensures (argMax, maxObjectiveValue)
              == Scan(input.classes, localWordToClass[word],
                      PlacedObjectives(nLogN, old(Current()), localWordToClass[word], Profile(input.historyCount, word)),
                      localWordToClass[word], old(objValue))
      ensures objValue == maxObjectiveValue
      ensures objValue >= old(objValue)
      ensures assignment == old(assignment)[word := argMax]
      ensures Current() == if argMax == localWordToClass[word] then old(Current())
                           else Moved(old(Current()), localWordToClass[word], argMax, Profile(input.historyCount, word))
    {
      argMax, maxObjectiveValue := ChooseClass(word);
      Settle(word, argMax);
    }

    /** The final move of the step: the word goes to `toClass` unless that is
        its own class. The engine invariant is kept, and the running
        objective changes by exactly the change of the recomputed one. */
    method Settle(word: Word, toClass: ClassId)
      requires Valid() && word in input.vocab
      requires assignment[word] == localWordToClass[word]
      requires CanLeave(Current(), localWordToClass[word], Profile(input.historyCount, word))
      modifies this`objValue, this`localClassHistoryCount, this`localClassCount, this`assignment
      ensures Valid()
      ensures objValue == old(objValue) + (Objective(nLogN, Current()) - Objective(nLogN, old(Current())))
      ensures assignment == old(assignment)[word := toClass]
      ensures toClass == localWordToClass[word] ==> Current() == old(Current())
      ensures toClass != localWordToClass[word] ==>
                Current() == Moved(old(Current()), localWordToClass[word], toClass, Profile(input.historyCount, word))
    {
      var currentClass := localWordToClass[word];
      if toClass != currentClass {
        EngineMove(input, nLogN, localWordToClass, Current(), assignment, objValue, word, toClass);
        Move(word, currentClass, toClass);
      } else {
        Unchanged(assignment, word);
      }
    }

    /** The choice for one word, which changes nothing: the word is taken
        out of its class, every class is offered at the objective it would
        give, and the first class that strictly beats staying and is not
        beaten by a later one wins. The choice is the scan over the
        objectives recomputed for each placement; staying keeps the
        objective, and moving raises it strictly and keeps the engine
        invariant for the assignment with the word in its new class. */
    method ChooseClass(word: Word) returns (argMax: ClassId, maxObjectiveValue: real)
      requires Valid() && word in input.vocab
      requires assignment[word] == localWordToClass[word]
      requires CanLeave(Current(), localWordToClass[word], Profile(input.historyCount, word))
      ensures (argMax, maxObjectiveValue)
              == Scan(input.classes, localWordToClass[word],
                      PlacedObjectives(nLogN, Current(), localWordToClass[word], Profile(input.historyCount, word)),
                      localWordToClass[word], objValue)
      ensures argMax == localWordToClass[word] ==> maxObjectiveValue == objValue
      ensures argMax != localWordToClass[word] ==>
                && maxObjectiveValue > objValue
                && maxObjectiveValue
                   == Objective(nLogN, Moved(Current(), localWordToClass[word], argMax, Profile(input.historyCount, word)))
    {
      var currentClass := localWordToClass[word];
      // The objective with the word taken out of its class
      var reducedObjValue := ObjectiveAfterRemoving(word, currentClass);
      // Each other class offered at that objective plus the gain of joining it
      argMax, maxObjectiveValue := BestClass(word, currentClass, reducedObjValue);
      ChoiceOutcome(nLogN, Current(), currentClass, Profile(input.historyCount, word), input.classes,
                    objValue, reducedObjValue, (argMax, maxObjectiveValue));
    }

    /** The objective if `word` were taken out of `currentClass`, computed
        from the running objective by replacing the terms the word touches;
        nothing is changed. */
    method ObjectiveAfterRemoving(word: Word, currentClass: ClassId) returns (reducedObjective: real)
      requires CanLeave(Current(), currentClass, Profile(input.historyCount, word))
      ensures reducedObjective
              == objValue + (Objective(nLogN, Leave(Current(), currentClass, Profile(input.historyCount, word)))
                             - Objective(nLogN, Current()))
    {
      reducedObjective := objValue;
      var historiesForWord := Profile(input.historyCount, word);
      var classHistory := RowOf(localClassHistoryCount, currentClass);
      var histories := historiesForWord.Keys;
      ghost var done: set<History> := {};
      while histories != {}
        invariant histories !! done && histories + done == historiesForWord.Keys
        invariant reducedObjective == objValue + SumOver(done, WithdrawTerms(nLogN, classHistory, historiesForWord))
        decreases histories
      {
        var history :| history in histories;
        var currentCount := Count(classHistory, history);
        var count := historiesForWord[history];
        ghost var before := reducedObjective - objValue;
        // The history's term before the withdrawal leaves the sum
        reducedObjective := reducedObjective - nLogN(currentCount);
        var newCount := currentCount - count;
        if newCount > 0 {
          // and its term after the withdrawal enters it
          reducedObjective := reducedObjective + nLogN(newCount);
        }
        WithdrawLoopStep(nLogN, classHistory, historiesForWord, done, history,
                         before, currentCount, newCount, reducedObjective - objValue);
        histories := histories - {history};
        done := done + {history};
      }
      var classCount := Get(localClassCount, currentClass);
      // The class term before the withdrawal leaves the sum (it is subtracted in J)
      reducedObjective := reducedObjective + nLogN(classCount);
      classCount := classCount - 1;
      if classCount > 0 {
        // and the term after it enters
        reducedObjective := reducedObjective - nLogN(classCount);
      }
      assert done == historiesForWord.Keys;
      assert reducedObjective == objValue + LeaveGain(nLogN, Current(), currentClass, historiesForWord);
      LeaveObjective(nLogN, Current(), currentClass, historiesForWord);
    }

    /** The change of the objective if `word` joined class `classId` while
        still counted in its own class; nothing is changed. */
    method JoinDelta(word: Word, classId: ClassId) returns (objDelta: real)
      ensures objDelta == JoinGain(nLogN, Current(), classId, Profile(input.historyCount, word))
      ensures objDelta == Objective(nLogN, Join(Current(), classId, Profile(input.historyCount, word)))
                          - Objective(nLogN, Current())
    {
      objDelta := 0.0;
      var historiesForWord := Profile(input.historyCount, word);
      var classHistory := RowOf(localClassHistoryCount, classId);
      var histories := historiesForWord.Keys;
      ghost var done: set<History> := {};
      while histories != {}
        invariant histories !! done && histories + done == historiesForWord.Keys
        invariant objDelta == SumOver(done, DepositTerms(nLogN, classHistory, historiesForWord))
        decreases histories
      {
        var history :| history in histories;
        var oldCount := Count(classHistory, history);
        var count := historiesForWord[history];
        ghost var before := objDelta;
        if oldCount > 0 {
          // The history's term before the deposit leaves the sum
          objDelta := objDelta - nLogN(oldCount);
        }
        var newCount := oldCount + count;
        // and its term after the deposit enters it
        objDelta := objDelta + nLogN(newCount);
        DepositLoopStep(nLogN, classHistory, historiesForWord, done, history, before, oldCount, newCount, objDelta);
        histories := histories - {history};
        done := done + {history};
      }
      var classCount := Get(localClassCount, classId);
      if classCount > 0 {
        // The class term before the deposit leaves the sum (it is subtracted in J)
        objDelta := objDelta + nLogN(classCount);
      }
      classCount := classCount + 1;
      // and the term after it enters
      objDelta := objDelta - nLogN(classCount);
      assert done == historiesForWord.Keys;
      assert objDelta == JoinGain(nLogN, Current(), classId, historiesForWord);
      JoinObjective(nLogN, Current(), classId, historiesForWord);
    }

    /** Scans the classes in order for the one whose candidate value
        (`reducedObjValue` plus the gain of joining it) is largest, starting
        from the current class at the running objective and replacing the
        best only on a strictly larger value; nothing is changed. */
    method BestClass(word: Word, currentClass: ClassId, reducedObjValue: real)
      returns (argMax: ClassId, maxObjectiveValue: real)
      ensures (argMax, maxObjectiveValue)
              == Scan(input.classes, currentClass,
                      CandidateValues(nLogN, Current(), Profile(input.historyCount, word), reducedObjValue),
                      currentClass, objValue)
    {
      var wordClasses := input.classes;
      ghost var value := CandidateValues(nLogN, Current(), Profile(input.historyCount, word), reducedObjValue);
      argMax := currentClass;
      maxObjectiveValue := objValue;
      var i := 0;
      while i < |wordClasses|
        invariant 0 <= i <= |wordClasses|
        invariant (argMax, maxObjectiveValue) == Scan(wordClasses[..i], currentClass, value, currentClass, objValue)
      {
        ScanStep(wordClasses, i, currentClass, value, currentClass, objValue);
        var classId := wordClasses[i];
        if classId != currentClass {
          var objDelta := JoinDelta(word, classId);
          assert value(classId) == reducedObjValue + objDelta;
          if reducedObjValue + objDelta > maxObjectiveValue {
            argMax := classId;
            maxObjectiveValue := reducedObjValue + objDelta;
          }
        }
        i := i + 1;
      }
      assert wordClasses[..i] == wordClasses;
    }

    /** Moves `word` from `fromClass` to `toClass`: the word's history counts
        leave one row and join the other, the word count moves by one, and
        the running objective is updated term by term. */
    method Move(word: Word, fromClass: ClassId, toClass: ClassId)
      requires fromClass != toClass
      requires CanLeave(Current(), fromClass, Profile(input.historyCount, word))
      modifies this`objValue, this`localClassHistoryCount, this`localClassCount, this`assignment
      ensures Current() == Moved(old(Current()), fromClass, toClass, Profile(input.historyCount, word))
      ensures objValue == old(objValue) + (Objective(nLogN, Current()) - Objective(nLogN, old(Current())))
      ensures assignment == old(assignment)[word := toClass]
    {
      ghost var t0, v0 := Current(), objValue;
      UpdateFirstTerm(word, fromClass, toClass);
      UpdateSecondTerm(fromClass, toClass);
      MoveApplied(nLogN, t0, fromClass, toClass, Profile(input.historyCount, word),
                  localClassHistoryCount, localClassCount, v0, objValue);
      assignment := assignment[word := toClass];
    }

    /** The history half of a move: each history of the word is taken out
        of the row of `fromClass` and added to the row of `toClass`, and the
        two terms of the objective it touches are replaced. */
    method UpdateFirstTerm(word: Word, fromClass: ClassId, toClass: ClassId)
      requires fromClass != toClass
      requires Covers(RowOf(localClassHistoryCount, fromClass), Profile(input.historyCount, word))
      modifies this`objValue, this`localClassHistoryCount
      ensures localClassHistoryCount
              == old(localClassHistoryCount)
                   [fromClass := Withdraw(RowOf(old(localClassHistoryCount), fromClass), Profile(input.historyCount, word),
                                          Profile(input.historyCount, word).Keys)]
                   [toClass := Deposit(RowOf(old(localClassHistoryCount), toClass), Profile(input.historyCount, word),
                                       Profile(input.historyCount, word).Keys)]
      ensures objValue
              == old(objValue)
                 + SumOver(Profile(input.historyCount, word).Keys,
                           WithdrawTerms(nLogN, RowOf(old(localClassHistoryCount), fromClass), Profile(input.historyCount, word)))
                 + SumOver(Profile(input.historyCount, word).Keys,
                           DepositTerms(nLogN, RowOf(old(localClassHistoryCount), toClass), Profile(input.historyCount, word)))
    {
      var historiesForWord := Profile(input.historyCount, word);
      // The two rows of the table (shared with it in the source: what is set
      // on them is the table's new rows)
      var historiesForFromClass := RowOf(localClassHistoryCount, fromClass);
      var historiesForToClass := RowOf(localClassHistoryCount, toClass);
      var value;
      historiesForFromClass, historiesForToClass, value :=
        ShiftHistories(nLogN, historiesForFromClass, historiesForToClass, historiesForWord, objValue);
      objValue := value;
      localClassHistoryCount := localClassHistoryCount[fromClass := historiesForFromClass][toClass := historiesForToClass];
    }

    /** The word-count half of a move: one word leaves `fromClass` and joins
        `toClass`, and the two class terms of the objective are replaced. */
    method UpdateSecondTerm(fromClass: ClassId, toClass: ClassId)
      requires fromClass != toClass
      requires Get(localClassCount, fromClass) > 0
      modifies this`objValue, this`localClassCount
      ensures localClassCount
              == old(localClassCount)[fromClass := Get(old(localClassCount), fromClass) - 1]
                                     [toClass := Get(old(localClassCount), toClass) + 1]
      ensures objValue
              == old(objValue)
                 + (nLogN(Get(old(localClassCount), fromClass)) - nLogN(Get(old(localClassCount), fromClass) - 1))
                 + (nLogN(Get(old(localClassCount), toClass)) - nLogN(Get(old(localClassCount), toClass) + 1))
    {
      var fromClassCount := Get(localClassCount, fromClass);
      var toClassCount := Get(localClassCount, toClass);
      objValue := objValue + nLogN(fromClassCount);
      if toClassCount > 0 {
        objValue := objValue + nLogN(toClassCount);
      }
      localClassCount := localClassCount[fromClass := Get(localClassCount, fromClass) - 1];
      localClassCount := localClassCount[toClass := Get(localClassCount, toClass) + 1];
      fromClassCount := fromClassCount - 1;
      toClassCount := toClassCount + 1;
      if fromClassCount > 0 {
        objValue := objValue - nLogN(fromClassCount);
      }
      objValue := objValue - nLogN(toClassCount);
    }
  }

  /** The working copies the engine starts from: the assignment of every
      vocabulary word, and for each class holding one of them its number of
      words and the input's history row, registered word by word. */
  method SetupDeltaStructures(input: ClustererInput)
    returns (wordToClass: map<Word, ClassId>, classCount: map<ClassId, nat>,
             classHistoryCount: map<ClassId, HistoryCounter>)
    requires forall w :: w in input.vocab ==> w in input.wordToClass
    ensures wordToClass == Restrict(input.vocab, input.wordToClass)
    ensures Tables(classHistoryCount, classCount) == InitialTables(input)
  {
    wordToClass, classCount, classHistoryCount := map[], map[], map[];
    var i := 0;
    while i < |input.vocab|
      invariant 0 <= i <= |input.vocab|
      invariant wordToClass == Restrict(input.vocab[..i], input.wordToClass)
      invariant classHistoryCount == RowsFor(input.vocab[..i], input.wordToClass, input.classHistoryCount)
      invariant classCount == SizesFor(input.vocab[..i], input.wordToClass)
    {
      var word := input.vocab[i];
      var classId := input.wordToClass[word];
      RestrictStep(input.vocab, input.wordToClass, i);
      TablesForStep(input.vocab, input.wordToClass, input.classHistoryCount, i,
                    classId, classHistoryCount, classCount);
      wordToClass := wordToClass[word := classId];
      classCount := classCount[classId := Get(classCount, classId) + 1];
      classHistoryCount := classHistoryCount[classId := RowOf(input.classHistoryCount, classId)];
      i := i + 1;
    }
    assert input.vocab[..i] == input.vocab;
  }

  /** The loop of the history half of a move, on the two rows and the
      running objective: for each history of the word, the word's count
      leaves the row of the class it is in and joins the row of the class
      it goes to, and the two terms of the objective that change are
      replaced. The rows end withdrawn and deposited over all the word's
      histories, and the objective has changed by the sum of the changes of
      their terms, whatever order the histories are visited in. */
  method ShiftHistories(f: NLogN, fromRow: HistoryCounter, toRow: HistoryCounter, historiesForWord: HistoryCounter,
                        objValue: real)
    returns (historiesForFromClass: HistoryCounter, historiesForToClass: HistoryCounter, value: real)
    requires Covers(fromRow, historiesForWord)
    ensures historiesForFromClass == Withdraw(fromRow, historiesForWord, historiesForWord.Keys)
    ensures historiesForToClass == Deposit(toRow, historiesForWord, historiesForWord.Keys)
    ensures value == objValue + SumOver(historiesForWord.Keys, WithdrawTerms(f, fromRow, historiesForWord))
                              + SumOver(historiesForWord.Keys, DepositTerms(f, toRow, historiesForWord))
  {
    historiesForFromClass, historiesForToClass := fromRow, toRow;
    NothingWithdrawn(fromRow, historiesForWord);
    NothingDeposited(toRow, historiesForWord);
    var histories := historiesForWord.Keys;
    ghost var done: set<History> := {};
    ghost var withdrawn, deposited := 0.0, 0.0;
    value := objValue;
    while histories != {}
      invariant histories !! done && histories + done == historiesForWord.Keys
      invariant historiesForFromClass == Withdraw(fromRow, historiesForWord, done)
      invariant historiesForToClass == Deposit(toRow, historiesForWord, done)
      invariant withdrawn == SumOver(done, WithdrawTerms(f, fromRow, historiesForWord))
      invariant deposited == SumOver(done, DepositTerms(f, toRow, historiesForWord))
      invariant value == objValue + withdrawn + deposited
      decreases histories
    {
      var history :| history in histories;
      VisitStep(histories, done, historiesForWord.Keys, history);
      WithdrawUntouched(fromRow, historiesForWord, done, history);
      DepositUntouched(toRow, historiesForWord, done, history);
      var fromCount := Count(historiesForFromClass, history);
      var toCount := Count(historiesForToClass, history);
      var count := historiesForWord[history];
      ghost var oldFrom, oldTo := fromCount, toCount;
      value := value - f(fromCount);
      if toCount > 0 {
        value := value - f(toCount);
      }
      fromCount := fromCount - count;
      toCount := toCount + count;
      WithdrawNext(fromRow, historiesForWord, done, history, historiesForFromClass, fromCount);
      DepositNext(toRow, historiesForWord, done, history, historiesForToClass, toCount);
      historiesForFromClass := historiesForFromClass[history := fromCount];
      historiesForToClass := historiesForToClass[history := toCount];
      if fromCount > 0 {
        value := value + f(fromCount);
      }
      value := value + f(toCount);
      ghost var nextWithdrawn := withdrawn - f(oldFrom) + (if fromCount > 0 then f(fromCount) else 0.0);
      ghost var nextDeposited := (if oldTo > 0 then deposited - f(oldTo) else deposited) + f(toCount);
      WithdrawLoopStep(f, fromRow, historiesForWord, done, history, withdrawn, oldFrom, fromCount, nextWithdrawn);
      DepositLoopStep(f, toRow, historiesForWord, done, history, deposited, oldTo, toCount, nextDeposited);
      withdrawn, deposited := nextWithdrawn, nextDeposited;
      histories := histories - {history};
      done := done + {history};
    }
    VisitDone(histories, done, historiesForWord.Keys);
  }

  /** The first summation of the objective: n ln n of every entry of every
      row of the table, visited in the table's own order. */
  method FirstSummation(f: NLogN, classHistoryCount: map<ClassId, HistoryCounter>) returns (sum: real)
    ensures sum == HistorySum(f, classHistoryCount)
  {
    sum := 0.0;
    var classIds := classHistoryCount.Keys;
    ghost var done: set<ClassId> := {};
    while classIds != {}
      invariant classIds !! done && classIds + done == classHistoryCount.Keys
      invariant sum == SumOver(done, RowSums(f, classHistoryCount))
      decreases classIds
    {
      // A witness that the set still has an element, for the choice below
      ghost var next := Element(classIds);
      var classId :| classId in classIds;
      VisitStep(classIds, done, classHistoryCount.Keys, classId);
      var rowSum := RowSummation(f, classHistoryCount[classId]);
      TableLoopStep(f, classHistoryCount, done, classId, sum, rowSum, sum + rowSum);
      sum := sum + rowSum;
      classIds := classIds - {classId};
      done := done + {classId};
    }
    VisitDone(classIds, done, classHistoryCount.Keys);
  }

  /** n ln n of every entry of one row. */
  method RowSummation(f: NLogN, historyCount: HistoryCounter) returns (sum: real)
    ensures sum == RowSum(f, historyCount)
  {
    sum := 0.0;
    var histories := historyCount.Keys;
    ghost var done: set<History> := {};
    while histories != {}
      invariant histories !! done && histories + done == historyCount.Keys
      invariant sum == SumOver(done, HistoryTerms(f, historyCount))
      decreases histories
    {
      var history :| history in histories;
      VisitStep(histories, done, historyCount.Keys, history);
      var count := historyCount[history];
      RowLoopStep(f, historyCount, done, history, sum, sum + f(count));
      sum := sum + f(count);
      histories := histories - {history};
      done := done + {history};
    }
    VisitDone(histories, done, historyCount.Keys);
  }

  /** The second summation of the objective: n ln n of every class count. */
  method SecondSummation(f: NLogN, classCount: map<ClassId, nat>) returns (sum: real)
    ensures sum == ClassSum(f, classCount)
  {
    sum := 0.0;
    var classIds := classCount.Keys;
    ghost var done: set<ClassId> := {};
    while classIds != {}
      invariant classIds !! done && classIds + done == classCount.Keys
      invariant sum == SumOver(done, ClassTerms(f, classCount))
      decreases classIds
    {
      // A witness that the set still has an element, for the choice below
      ghost var next := Element(classIds);
      var classId :| classId in classIds;
      VisitStep(classIds, done, classCount.Keys, classId);
      var count := classCount[classId];
      ClassLoopStep(f, classCount, done, classId, sum, sum + f(count));
      sum := sum + f(count);
      classIds := classIds - {classId};
      done := done + {classId};
    }
    VisitDone(classIds, done, classCount.Keys);
  }
}
