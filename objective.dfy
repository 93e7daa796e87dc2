/** The objective of the one-sided class model of Uszkoreit and Brants (2008),
      J = sum over (c, h) of f(n(c, h))  -  sum over c of f(N(c)),
    with f(n) = n ln n, n(c, h) the class/history count and N(c) the class
    count, and the algebra of its incremental updates. */
module ClassObjective {
  import opened Sums
  import opened Counts

  /** The term n ln n, as a real-valued function on counts. Logarithms are
      not available, so the engine is given this function; the only fact
      the algebra needs is the convention 0 ln 0 = 0. */
  type NLogN = f: nat -> real | f(0) == 0.0 witness (n: nat) => 0.0

  /** The term of one (class, history) entry. */
  ghost function HistoryTerm(f: NLogN, row: HistoryCounter, h: History): real {
    f(Count(row, h))
  }

  ghost function HistoryTerms(f: NLogN, row: HistoryCounter): History -> real {
    h => HistoryTerm(f, row, h)
  }

  /** The first summation restricted to one class. */
  ghost function RowSum(f: NLogN, row: HistoryCounter): real {
    SumOver(row.Keys, HistoryTerms(f, row))
  }

  ghost function RowSums(f: NLogN, t: map<ClassId, HistoryCounter>): ClassId -> real {
    c => RowSum(f, RowOf(t, c))
  }

  /** First summation: f over every (class, history) entry of the table. */
  ghost function HistorySum(f: NLogN, t: map<ClassId, HistoryCounter>): real {
    SumOver(t.Keys, RowSums(f, t))
  }

  /** The term of one class count. */
  ghost function ClassTerm(f: NLogN, cc: map<ClassId, nat>, c: ClassId): real {
    f(Get(cc, c))
  }

  ghost function ClassTerms(f: NLogN, cc: map<ClassId, nat>): ClassId -> real {
    c => ClassTerm(f, cc, c)
  }

  /** Second summation: f over every class count. */
  ghost function ClassSum(f: NLogN, cc: map<ClassId, nat>): real {
    SumOver(cc.Keys, ClassTerms(f, cc))
  }

  /** The objective recomputed from scratch. */
  ghost function Objective(f: NLogN, t: Tables): real {
    HistorySum(f, t.history) - ClassSum(f, t.count)
  }

  // ---------------------------------------------------------------------
  // Point updates: changing one count changes the objective by one term.

  /** Setting one history count of a row replaces that history's term. */
  lemma RowCellUpdate(f: NLogN, row: HistoryCounter, h: History, v: nat)
    ensures RowSum(f, row[h := v]) == RowSum(f, row) - f(Count(row, h)) + f(v)
  {
    assert row[h := v].Keys == row.Keys + {h};
    forall y | y in row.Keys && y != h
      ensures HistoryTerms(f, row)(y) == HistoryTerms(f, row[h := v])(y)
    {
      assert Count(row, y) == Count(row[h := v], y);
    }
    SumPointChange(row.Keys, HistoryTerms(f, row), HistoryTerms(f, row[h := v]), h);
    assert Count(row[h := v], h) == v;
    assert HistoryTerms(f, row[h := v])(h) == f(v);
    assert HistoryTerms(f, row)(h) == f(Count(row, h));
    assert h !in row ==> f(Count(row, h)) == 0.0;
  }

  /** Replacing one class's row replaces that row's contribution. */
  lemma HistoryRowUpdate(f: NLogN, t: map<ClassId, HistoryCounter>, c: ClassId, r: HistoryCounter)
    ensures HistorySum(f, t[c := r]) == HistorySum(f, t) - RowSum(f, RowOf(t, c)) + RowSum(f, r)
  {
    assert t[c := r].Keys == t.Keys + {c};
    forall y | y in t.Keys && y != c
      ensures RowSums(f, t)(y) == RowSums(f, t[c := r])(y)
    {
      assert RowOf(t, y) == RowOf(t[c := r], y);
    }
    SumPointChange(t.Keys, RowSums(f, t), RowSums(f, t[c := r]), c);
    if c !in t {
      assert RowOf(t, c) == map[];
      assert RowSum(f, map[]) == 0.0;
    }
  }

  /** Setting one (class, history) count replaces its term in the objective
      (the update `setCount` performs on a row of the table). */
  lemma HistoryCellUpdate(f: NLogN, t: map<ClassId, HistoryCounter>, c: ClassId, h: History, v: nat)
    ensures HistorySum(f, t[c := RowOf(t, c)[h := v]])
            == HistorySum(f, t) - f(Count(RowOf(t, c), h)) + f(v)
  {
    HistoryRowUpdate(f, t, c, RowOf(t, c)[h := v]);
    RowCellUpdate(f, RowOf(t, c), h, v);
  }

  /** Setting one class count replaces its term in the objective. */
  lemma ClassUpdate(f: NLogN, cc: map<ClassId, nat>, c: ClassId, v: nat)
    ensures ClassSum(f, cc[c := v]) == ClassSum(f, cc) - f(Get(cc, c)) + f(v)
  {
    assert cc[c := v].Keys == cc.Keys + {c};
    forall y | y in cc.Keys && y != c
      ensures ClassTerms(f, cc)(y) == ClassTerms(f, cc[c := v])(y)
    {
      assert Get(cc, y) == Get(cc[c := v], y);
    }
    SumPointChange(cc.Keys, ClassTerms(f, cc), ClassTerms(f, cc[c := v]), c);
    assert Get(cc[c := v], c) == v;
    assert ClassTerms(f, cc[c := v])(c) == f(v);
    assert ClassTerms(f, cc)(c) == f(Get(cc, c));
    assert c !in cc ==> f(Get(cc, c)) == 0.0;
  }

  // ---------------------------------------------------------------------
  // The objective depends only on the counts, not on which zero entries
  // happen to be stored.

  lemma RowSumOnCounts(f: NLogN, r1: HistoryCounter, r2: HistoryCounter)
    requires forall h :: Count(r1, h) == Count(r2, h)
    ensures RowSum(f, r1) == RowSum(f, r2)
  {
    var u := r1.Keys + r2.Keys;
    SumExtend(r1.Keys, u, HistoryTerms(f, r1));
    SumExtend(r2.Keys, u, HistoryTerms(f, r2));
    SumAgree(u, HistoryTerms(f, r1), HistoryTerms(f, r2));
  }

  /** Two class/history tables with the same counts everywhere (a stored
      zero entry and a missing entry read alike) have the same first sum. */
  lemma HistorySumOnCounts(f: NLogN, t1: map<ClassId, HistoryCounter>, t2: map<ClassId, HistoryCounter>)
    requires forall c, h :: Count(RowOf(t1, c), h) == Count(RowOf(t2, c), h)
    ensures HistorySum(f, t1) == HistorySum(f, t2)
  {
    var u := t1.Keys + t2.Keys;
    forall c | c in u ensures RowSums(f, t1)(c) == RowSums(f, t2)(c) {
      RowSumOnCounts(f, RowOf(t1, c), RowOf(t2, c));
    }
    assert RowSum(f, map[]) == 0.0;
    forall c | c in u && c !in t1.Keys ensures RowSums(f, t1)(c) == 0.0 {
      assert RowOf(t1, c) == map[];
    }
    forall c | c in u && c !in t2.Keys ensures RowSums(f, t2)(c) == 0.0 {
      assert RowOf(t2, c) == map[];
    }
    SumExtend(t1.Keys, u, RowSums(f, t1));
    SumExtend(t2.Keys, u, RowSums(f, t2));
    SumAgree(u, RowSums(f, t1), RowSums(f, t2));
  }

  /** Two class counters with the same counts have the same second sum. */
  lemma ClassSumOnCounts(f: NLogN, cc1: map<ClassId, nat>, cc2: map<ClassId, nat>)
    requires forall c :: Get(cc1, c) == Get(cc2, c)
    ensures ClassSum(f, cc1) == ClassSum(f, cc2)
  {
    var v := cc1.Keys + cc2.Keys;
    forall c | c in v ensures ClassTerms(f, cc1)(c) == ClassTerms(f, cc2)(c) {
    }
    SumExtend(cc1.Keys, v, ClassTerms(f, cc1));
    SumExtend(cc2.Keys, v, ClassTerms(f, cc2));
    SumAgree(v, ClassTerms(f, cc1), ClassTerms(f, cc2));
  }

  /** Tables with the same counts everywhere have the same objective. */
  lemma ObjectiveOnCounts(f: NLogN, t1: Tables, t2: Tables)
    requires forall c, h :: Count(RowOf(t1.history, c), h) == Count(RowOf(t2.history, c), h)
    requires forall c :: Get(t1.count, c) == Get(t2.count, c)
    ensures Objective(f, t1) == Objective(f, t2)
  {
    HistorySumOnCounts(f, t1.history, t2.history);
    ClassSumOnCounts(f, t1.count, t2.count);
  }

  /** When the input tables describe the input assignment, the objective
      computed from the input tables equals the objective of the working
      tables the constructor builds from them. */
  lemma InitialObjectiveAgrees(f: NLogN, input: ClustererInput)
    requires Consistent(input)
    ensures Objective(f, Tables(input.classHistoryCount, input.classCount)) == Objective(f, InitialTables(input))
  {
    var init := InitialTables(input);
    var held := ClassesOf(input.vocab, input.wordToClass);
    forall c, h
      ensures Count(RowOf(input.classHistoryCount, c), h) == Count(RowOf(init.history, c), h)
    {
      if c !in held {
        EmptyClass(input.vocab, input.wordToClass, input.historyCount, c, h);
      }
    }
    forall c ensures Get(input.classCount, c) == Get(init.count, c) {
      if c !in held {
        EmptyClass(input.vocab, input.wordToClass, input.historyCount, c, []);
      }
    }
    ObjectiveOnCounts(f, Tables(input.classHistoryCount, input.classCount), init);
  }

  // ---------------------------------------------------------------------
  // Taking a word out of a class and putting it into a class.

  /** The row after subtracting the word's counts for the histories in hs. */
  function Withdraw(row: HistoryCounter, wh: HistoryCounter, hs: set<History>): HistoryCounter
    requires Covers(row, wh)
  {
    map h | h in row.Keys + hs :: if h in hs then Count(row, h) - Count(wh, h) else Count(row, h)
  }

  /** The row after adding the word's counts for the histories in hs. */
  function Deposit(row: HistoryCounter, wh: HistoryCounter, hs: set<History>): HistoryCounter {
    map h | h in row.Keys + hs :: if h in hs then Count(row, h) + Count(wh, h) else Count(row, h)
  }

  /** Withdrawing one more history sets exactly that history's count. */
  lemma WithdrawStep(row: HistoryCounter, wh: HistoryCounter, hs: set<History>, h: History)
    requires Covers(row, wh)
    requires h !in hs
    ensures Count(Withdraw(row, wh, hs), h) == Count(row, h)
    ensures Withdraw(row, wh, hs + {h}) == Withdraw(row, wh, hs)[h := Count(row, h) - Count(wh, h)]
  {
  }

  /** Depositing one more history sets exactly that history's count. */
  lemma DepositStep(row: HistoryCounter, wh: HistoryCounter, hs: set<History>, h: History)
    requires h !in hs
    ensures Count(Deposit(row, wh, hs), h) == Count(row, h)
    ensures Deposit(row, wh, hs + {h}) == Deposit(row, wh, hs)[h := Count(row, h) + Count(wh, h)]
  {
  }

  /** Withdrawing or depositing over no history leaves the row as it is. */
  lemma NothingWithdrawn(row: HistoryCounter, wh: HistoryCounter)
    requires Covers(row, wh)
    ensures Withdraw(row, wh, {}) == row
  {
  }

  lemma NothingDeposited(row: HistoryCounter, wh: HistoryCounter)
    ensures Deposit(row, wh, {}) == row
  {
  }

  /** Withdrawing over one more history replaces that history's term in
      the row. */
  lemma WithdrawRowSum(f: NLogN, row: HistoryCounter, wh: HistoryCounter, hs: set<History>, h: History)
    requires Covers(row, wh)
    requires h in hs
    ensures RowSum(f, Withdraw(row, wh, hs))
            == RowSum(f, Withdraw(row, wh, hs - {h})) - f(Count(row, h)) + f(Count(row, h) - Count(wh, h))
  {
    WithdrawStep(row, wh, hs - {h}, h);
    assert hs - {h} + {h} == hs;
    RowCellUpdate(f, Withdraw(row, wh, hs - {h}), h, Count(row, h) - Count(wh, h));
  }

  /** Depositing over one more history replaces that history's term in the
      row. */
  lemma DepositRowSum(f: NLogN, row: HistoryCounter, wh: HistoryCounter, hs: set<History>, h: History)
    requires h in hs
    ensures RowSum(f, Deposit(row, wh, hs))
            == RowSum(f, Deposit(row, wh, hs - {h})) - f(Count(row, h)) + f(Count(row, h) + Count(wh, h))
  {
    DepositStep(row, wh, hs - {h}, h);
    assert hs - {h} + {h} == hs;
    RowCellUpdate(f, Deposit(row, wh, hs - {h}), h, Count(row, h) + Count(wh, h));
  }

  /** The change of one history's term when the word's count for it is
      withdrawn from the row. */
  ghost function WithdrawTerms(f: NLogN, row: HistoryCounter, wh: HistoryCounter): History -> real {
    h => WithdrawTerm(f, row, wh, h)
  }

  ghost function WithdrawTerm(f: NLogN, row: HistoryCounter, wh: HistoryCounter, h: History): real {
    if Count(wh, h) <= Count(row, h) then f(Count(row, h) - Count(wh, h)) - f(Count(row, h)) else 0.0
  }

  /** The change of one history's term when the word's count for it is
      deposited in the row. */
  ghost function DepositTerms(f: NLogN, row: HistoryCounter, wh: HistoryCounter): History -> real {
    h => DepositTerm(f, row, wh, h)
  }

  ghost function DepositTerm(f: NLogN, row: HistoryCounter, wh: HistoryCounter, h: History): real {
    f(Count(row, h) + Count(wh, h)) - f(Count(row, h))
  }

  /** Withdrawing over hs changes the row's sum by the sum of the changes
      of the terms of hs, whatever order they are taken in. */
  lemma {:induction false} WithdrawGain(f: NLogN, row: HistoryCounter, wh: HistoryCounter, hs: set<History>)
    requires Covers(row, wh)
    ensures RowSum(f, Withdraw(row, wh, hs)) == RowSum(f, row) + SumOver(hs, WithdrawTerms(f, row, wh))
    decreases hs
  {
    if hs == {} {
      NothingWithdrawn(row, wh);
    } else {
      var h :| h in hs;
      WithdrawGain(f, row, wh, hs - {h});
      WithdrawGainStep(f, row, wh, hs, h);
    }
  }

  lemma WithdrawGainStep(f: NLogN, row: HistoryCounter, wh: HistoryCounter, hs: set<History>, h: History)
    requires Covers(row, wh) && h in hs
    requires RowSum(f, Withdraw(row, wh, hs - {h})) == RowSum(f, row) + SumOver(hs - {h}, WithdrawTerms(f, row, wh))
    ensures RowSum(f, Withdraw(row, wh, hs)) == RowSum(f, row) + SumOver(hs, WithdrawTerms(f, row, wh))
  {
    WithdrawRowSum(f, row, wh, hs, h);
    SumRemove(hs, WithdrawTerms(f, row, wh), h);
    assert WithdrawTerms(f, row, wh)(h) == WithdrawTerm(f, row, wh, h);
  }

  /** Depositing over hs changes the row's sum by the sum of the changes
      of the terms of hs, whatever order they are taken in. */
  lemma {:induction false} DepositGain(f: NLogN, row: HistoryCounter, wh: HistoryCounter, hs: set<History>)
    ensures RowSum(f, Deposit(row, wh, hs)) == RowSum(f, row) + SumOver(hs, DepositTerms(f, row, wh))
    decreases hs
  {
    if hs == {} {
      NothingDeposited(row, wh);
    } else {
      var h :| h in hs;
      DepositGain(f, row, wh, hs - {h});
      DepositGainStep(f, row, wh, hs, h);
    }
  }

  lemma DepositGainStep(f: NLogN, row: HistoryCounter, wh: HistoryCounter, hs: set<History>, h: History)
    requires h in hs
    requires RowSum(f, Deposit(row, wh, hs - {h})) == RowSum(f, row) + SumOver(hs - {h}, DepositTerms(f, row, wh))
    ensures RowSum(f, Deposit(row, wh, hs)) == RowSum(f, row) + SumOver(hs, DepositTerms(f, row, wh))
  {
    DepositRowSum(f, row, wh, hs, h);
    SumRemove(hs, DepositTerms(f, row, wh), h);
    assert DepositTerms(f, row, wh)(h) == DepositTerm(f, row, wh, h);
  }

  /** The row being withdrawn from, one history further: the history's
      count had not been touched yet and is lowered by the word's count. */
  lemma WithdrawNext(row: HistoryCounter, wh: HistoryCounter, done: set<History>, h: History, cur: HistoryCounter, v: nat)
    requires Covers(row, wh) && h in wh && h !in done
    requires cur == Withdraw(row, wh, done)
    requires v == Count(row, h) - wh[h]
    ensures cur[h := v] == Withdraw(row, wh, done + {h})
  {
    WithdrawStep(row, wh, done, h);
  }

  /** The history's count in the row being withdrawn from has not been
      touched before its turn. */
  lemma WithdrawUntouched(row: HistoryCounter, wh: HistoryCounter, done: set<History>, h: History)
    requires Covers(row, wh) && h in wh && h !in done
    ensures Count(Withdraw(row, wh, done), h) == Count(row, h) >= wh[h]
  {
  }

  /** The row being deposited into, one history further. */
  lemma DepositNext(row: HistoryCounter, wh: HistoryCounter, done: set<History>, h: History, cur: HistoryCounter, v: nat)
    requires h in wh && h !in done
    requires cur == Deposit(row, wh, done)
    requires v == Count(row, h) + wh[h]
    ensures cur[h := v] == Deposit(row, wh, done + {h})
  {
    DepositStep(row, wh, done, h);
  }

  /** The history's count in the row being deposited into has not been
      touched before its turn. */
  lemma DepositUntouched(row: HistoryCounter, wh: HistoryCounter, done: set<History>, h: History)
    requires h in wh && h !in done
    ensures Count(Deposit(row, wh, done), h) == Count(row, h)
  {
  }

  /** One step of a loop that adds up the terms of a row. */
  lemma RowLoopStep(f: NLogN, row: HistoryCounter, done: set<History>, h: History, acc: real, next: real)
    requires h in row && h !in done
    requires acc == SumOver(done, HistoryTerms(f, row))
    requires next == acc + f(row[h])
    ensures next == SumOver(done + {h}, HistoryTerms(f, row))
  {
    SumAdd(done, HistoryTerms(f, row), h);
    assert HistoryTerms(f, row)(h) == HistoryTerm(f, row, h);
  }

  /** One step of a loop that adds up the sums of the rows of a table. */
  lemma TableLoopStep(f: NLogN, t: map<ClassId, HistoryCounter>, done: set<ClassId>, c: ClassId,
                      acc: real, rowSum: real, next: real)
    requires c in t && c !in done
    requires acc == SumOver(done, RowSums(f, t))
    requires rowSum == RowSum(f, t[c]) && next == acc + rowSum
    ensures next == SumOver(done + {c}, RowSums(f, t))
  {
    SumAdd(done, RowSums(f, t), c);
    assert RowSums(f, t)(c) == RowSum(f, RowOf(t, c));
  }

  /** One step of a loop that adds up the terms of the class counts. */
  lemma ClassLoopStep(f: NLogN, cc: map<ClassId, nat>, done: set<ClassId>, c: ClassId, acc: real, next: real)
    requires c in cc && c !in done
    requires acc == SumOver(done, ClassTerms(f, cc))
    requires next == acc + f(cc[c])
    ensures next == SumOver(done + {c}, ClassTerms(f, cc))
  {
    SumAdd(done, ClassTerms(f, cc), c);
    assert ClassTerms(f, cc)(c) == ClassTerm(f, cc, c);
  }

  /** One step of a loop that accumulates the changes of the terms while
      withdrawing: the term of h, whose count is `count`, is replaced by
      the term of the reduced count, and dropped when that is zero. */
  lemma WithdrawLoopStep(f: NLogN, row: HistoryCounter, wh: HistoryCounter, done: set<History>, h: History,
                         acc: real, count: nat, newCount: nat, next: real)
    requires Covers(row, wh) && h in wh && h !in done
    requires acc == SumOver(done, WithdrawTerms(f, row, wh))
    requires count == Count(row, h) && newCount == count - wh[h]
    requires next == acc - f(count) + (if newCount > 0 then f(newCount) else 0.0)
    ensures next == SumOver(done + {h}, WithdrawTerms(f, row, wh))
  {
    SumAdd(done, WithdrawTerms(f, row, wh), h);
    assert WithdrawTerms(f, row, wh)(h) == WithdrawTerm(f, row, wh, h);
  }

  /** One step of a loop that accumulates the changes of the terms while
      depositing: the term of h, absent when its count was zero, is
      replaced by the term of the increased count. */
  lemma DepositLoopStep(f: NLogN, row: HistoryCounter, wh: HistoryCounter, done: set<History>, h: History,
                        acc: real, count: nat, newCount: nat, next: real)
    requires h in wh && h !in done
    requires acc == SumOver(done, DepositTerms(f, row, wh))
    requires count == Count(row, h) && newCount == count + wh[h]
    requires next == (if count > 0 then acc - f(count) else acc) + f(newCount)
    ensures next == SumOver(done + {h}, DepositTerms(f, row, wh))
  {
    SumAdd(done, DepositTerms(f, row, wh), h);
    assert DepositTerms(f, row, wh)(h) == DepositTerm(f, row, wh, h);
  }

  /** Every history of the word has a positive count in the row, at least
      the word's own. */
  predicate Covers(row: HistoryCounter, wh: HistoryCounter) {
    forall h :: h in wh ==> 0 < Count(row, h) && wh[h] <= Count(row, h)
  }

  /** What the source asserts before taking a word with histories wh out of
      class c: the row of c covers the word's histories and the class count
      is positive. */
  predicate CanLeave(t: Tables, c: ClassId, wh: HistoryCounter) {
    Get(t.count, c) > 0 && Covers(RowOf(t.history, c), wh)
  }

  /** The tables with the word taken out of class c. */
  function Leave(t: Tables, c: ClassId, wh: HistoryCounter): Tables
    requires CanLeave(t, c, wh)
  {
    Tables(t.history[c := Withdraw(RowOf(t.history, c), wh, wh.Keys)], t.count[c := Get(t.count, c) - 1])
  }

  /** The tables with the word put into class c. */
  function Join(t: Tables, c: ClassId, wh: HistoryCounter): Tables {
    Tables(t.history[c := Deposit(RowOf(t.history, c), wh, wh.Keys)], t.count[c := Get(t.count, c) + 1])
  }

  /** The tables with the word moved from class `from` to class `to`. */
  function Moved(t: Tables, from: ClassId, to: ClassId, wh: HistoryCounter): Tables
    requires CanLeave(t, from, wh)
  {
    Join(Leave(t, from, wh), to, wh)
  }

  /** The change of the objective when the word leaves class c: the terms
      of the word's histories in the row of c, and the term of the count
      of c. */
  ghost function LeaveGain(f: NLogN, t: Tables, c: ClassId, wh: HistoryCounter): real
    requires CanLeave(t, c, wh)
  {
    SumOver(wh.Keys, WithdrawTerms(f, RowOf(t.history, c), wh)) + (f(Get(t.count, c)) - f(Get(t.count, c) - 1))
  }

  /** The change of the objective when the word joins class c. */
  ghost function JoinGain(f: NLogN, t: Tables, c: ClassId, wh: HistoryCounter): real {
    SumOver(wh.Keys, DepositTerms(f, RowOf(t.history, c), wh)) + (f(Get(t.count, c)) - f(Get(t.count, c) + 1))
  }

  /** The value a class is offered at when the word, already taken out
      of its class at objective `reduced`, would join c. */
  ghost function CandidateValue(f: NLogN, t: Tables, wh: HistoryCounter, reduced: real, c: ClassId): real {
    reduced + JoinGain(f, t, c, wh)
  }

  ghost function CandidateValues(f: NLogN, t: Tables, wh: HistoryCounter, reduced: real): ClassId -> real {
    c => CandidateValue(f, t, wh, reduced, c)
  }

  /** Taking the word out of class c changes the objective only through the
      row of c and the count of c. */
  lemma LeaveObjective(f: NLogN, t: Tables, c: ClassId, wh: HistoryCounter)
    requires CanLeave(t, c, wh)
    ensures Objective(f, Leave(t, c, wh)) == Objective(f, t) + LeaveGain(f, t, c, wh)
  {
    var row := RowOf(t.history, c);
    calc {
      Objective(f, Leave(t, c, wh));
      == { LeaveRows(f, t, c, wh); }
      Objective(f, t) + (RowSum(f, Withdraw(row, wh, wh.Keys)) - RowSum(f, row)) + (f(Get(t.count, c)) - f(Get(t.count, c) - 1));
      == { WithdrawGain(f, row, wh, wh.Keys); }
      Objective(f, t) + LeaveGain(f, t, c, wh);
    }
  }

  lemma LeaveRows(f: NLogN, t: Tables, c: ClassId, wh: HistoryCounter)
    requires CanLeave(t, c, wh)
    ensures Objective(f, Leave(t, c, wh))
            == Objective(f, t)
               + (RowSum(f, Withdraw(RowOf(t.history, c), wh, wh.Keys)) - RowSum(f, RowOf(t.history, c)))
               + (f(Get(t.count, c)) - f(Get(t.count, c) - 1))
  {
    var row, n := RowOf(t.history, c), Get(t.count, c);
    var w := Withdraw(row, wh, wh.Keys);
    calc {
      Objective(f, Leave(t, c, wh));
      HistorySum(f, t.history[c := w]) - ClassSum(f, t.count[c := n - 1]);
      == { HistoryRowUpdate(f, t.history, c, w); }
      HistorySum(f, t.history) - RowSum(f, row) + RowSum(f, w) - ClassSum(f, t.count[c := n - 1]);
      == { ClassUpdate(f, t.count, c, n - 1); }
      HistorySum(f, t.history) - RowSum(f, row) + RowSum(f, w) - (ClassSum(f, t.count) - f(n) + f(n - 1));
    }
  }

  /** Putting the word into class c changes the objective only through the
      row of c and the count of c. */
  lemma JoinObjective(f: NLogN, t: Tables, c: ClassId, wh: HistoryCounter)
    ensures Objective(f, Join(t, c, wh)) == Objective(f, t) + JoinGain(f, t, c, wh)
  {
    var row := RowOf(t.history, c);
    calc {
      Objective(f, Join(t, c, wh));
      == { JoinRows(f, t, c, wh); }
      Objective(f, t) + (RowSum(f, Deposit(row, wh, wh.Keys)) - RowSum(f, row)) + (f(Get(t.count, c)) - f(Get(t.count, c) + 1));
      == { DepositGain(f, row, wh, wh.Keys); }
      Objective(f, t) + JoinGain(f, t, c, wh);
    }
  }

  lemma JoinRows(f: NLogN, t: Tables, c: ClassId, wh: HistoryCounter)
    ensures Objective(f, Join(t, c, wh))
            == Objective(f, t)
               + (RowSum(f, Deposit(RowOf(t.history, c), wh, wh.Keys)) - RowSum(f, RowOf(t.history, c)))
               + (f(Get(t.count, c)) - f(Get(t.count, c) + 1))
  {
    var row, n := RowOf(t.history, c), Get(t.count, c);
    var d := Deposit(row, wh, wh.Keys);
    calc {
      Objective(f, Join(t, c, wh));
      HistorySum(f, t.history[c := d]) - ClassSum(f, t.count[c := n + 1]);
      == { HistoryRowUpdate(f, t.history, c, d); }
      HistorySum(f, t.history) - RowSum(f, row) + RowSum(f, d) - ClassSum(f, t.count[c := n + 1]);
      == { ClassUpdate(f, t.count, c, n + 1); }
      HistorySum(f, t.history) - RowSum(f, row) + RowSum(f, d) - (ClassSum(f, t.count) - f(n) + f(n + 1));
    }
  }

  /** A move changes the objective by the change of leaving `from` plus
      the change of joining `to`, both read off the tables before the
      move. */
  lemma MovedObjective(f: NLogN, t: Tables, from: ClassId, to: ClassId, wh: HistoryCounter)
    requires CanLeave(t, from, wh) && from != to
    ensures Objective(f, Moved(t, from, to, wh)) == Objective(f, t) + LeaveGain(f, t, from, wh) + JoinGain(f, t, to, wh)
  {
    var l := Leave(t, from, wh);
    calc {
      Objective(f, Moved(t, from, to, wh));
      Objective(f, Join(l, to, wh));
      == { JoinObjective(f, l, to, wh); }
      Objective(f, l) + JoinGain(f, l, to, wh);
      == { assert RowOf(l.history, to) == RowOf(t.history, to);
           assert Get(l.count, to) == Get(t.count, to); }
      Objective(f, l) + JoinGain(f, t, to, wh);
      == { LeaveObjective(f, t, from, wh); }
      Objective(f, t) + LeaveGain(f, t, from, wh) + JoinGain(f, t, to, wh);
    }
  }

  /** The tables after a move, written as two row updates and two count
      updates. */
  lemma MovedTables(t: Tables, from: ClassId, to: ClassId, wh: HistoryCounter)
    requires CanLeave(t, from, wh) && from != to
    ensures Moved(t, from, to, wh)
            == Tables(t.history[from := Withdraw(RowOf(t.history, from), wh, wh.Keys)]
                               [to := Deposit(RowOf(t.history, to), wh, wh.Keys)],
                      t.count[from := Get(t.count, from) - 1][to := Get(t.count, to) + 1])
  {
    var l := Leave(t, from, wh);
    assert RowOf(l.history, to) == RowOf(t.history, to);
    assert Get(l.count, to) == Get(t.count, to);
  }

  /** Tables and a running value updated row by row and term by term are
      the moved tables and the value changed by the change of the objective. */
  lemma MoveApplied(f: NLogN, t: Tables, from: ClassId, to: ClassId, wh: HistoryCounter,
                    history: map<ClassId, HistoryCounter>, count: map<ClassId, nat>, before: real, after: real)
    requires CanLeave(t, from, wh) && from != to
    requires history == t.history[from := Withdraw(RowOf(t.history, from), wh, wh.Keys)]
                                 [to := Deposit(RowOf(t.history, to), wh, wh.Keys)]
    requires count == t.count[from := Get(t.count, from) - 1][to := Get(t.count, to) + 1]
    requires after == before + LeaveGain(f, t, from, wh) + JoinGain(f, t, to, wh)
    ensures Tables(history, count) == Moved(t, from, to, wh)
    ensures after == before + (Objective(f, Moved(t, from, to, wh)) - Objective(f, t))
  {
    MovedTables(t, from, to, wh);
    MovedObjective(f, t, from, to, wh);
  }

  /** A move takes the word's occurrences of history h out of class
      `from`, puts them into class `to`, and changes no other count; the word
      count moves by one. */
  lemma MoveEffect(t: Tables, from: ClassId, to: ClassId, wh: HistoryCounter, c: ClassId, h: History)
    requires CanLeave(t, from, wh) && from != to
    ensures Count(RowOf(Moved(t, from, to, wh).history, c), h) + (if c == from then Count(wh, h) else 0)
            == Count(RowOf(t.history, c), h) + (if c == to then Count(wh, h) else 0)
    ensures Get(Moved(t, from, to, wh).count, c) + (if c == from then 1 else 0)
            == Get(t.count, c) + (if c == to then 1 else 0)
  {
    MovedTables(t, from, to, wh);
    var m := Moved(t, from, to, wh);
    if c == from {
      assert RowOf(m.history, c) == Withdraw(RowOf(t.history, from), wh, wh.Keys);
      assert h in wh ==> Count(wh, h) <= Count(RowOf(t.history, from), h);
    } else if c == to {
      assert RowOf(m.history, c) == Deposit(RowOf(t.history, to), wh, wh.Keys);
    } else {
      assert RowOf(m.history, c) == RowOf(t.history, c);
    }
  }

  /** Hence a move conserves the totals of the two classes it touches. */
  lemma MoveConserves(t: Tables, from: ClassId, to: ClassId, wh: HistoryCounter, h: History)
    requires CanLeave(t, from, wh) && from != to
    ensures Count(RowOf(Moved(t, from, to, wh).history, from), h) + Count(RowOf(Moved(t, from, to, wh).history, to), h)
            == Count(RowOf(t.history, from), h) + Count(RowOf(t.history, to), h)
    ensures Get(Moved(t, from, to, wh).count, from) + Get(Moved(t, from, to, wh).count, to)
            == Get(t.count, from) + Get(t.count, to)
  {
    MoveEffect(t, from, to, wh, from, h);
    MoveEffect(t, from, to, wh, to, h);
  }

  /** The value of a candidate class splits into the objective with the
      word removed from its class plus the gain of joining the candidate,
      the latter computed on the tables that still hold the word. */
  lemma CandidateSplits(f: NLogN, t: Tables, cur: ClassId, c: ClassId, wh: HistoryCounter)
    requires CanLeave(t, cur, wh) && c != cur
    ensures Objective(f, Moved(t, cur, c, wh))
            == Objective(f, Leave(t, cur, wh)) + (Objective(f, Join(t, c, wh)) - Objective(f, t))
  {
    MovedObjective(f, t, cur, c, wh);
    LeaveObjective(f, t, cur, wh);
    JoinObjective(f, t, c, wh);
  }
}
