/** The data the exchange step works on: words, class ids, n-gram histories,
    the clusterer's input snapshot and output bundle, the counter accessors
    (a missing key reads as zero, a missing row as an empty counter), and
    what it means for the class tables to describe a word-to-class
    assignment. */
module Counts {

  type Word = string
  type ClassId = int
  /** An n-gram context; compared by value only. */
  type History = seq<string>

  /** A counter of histories (one row of a two-dimensional counter). */
  type HistoryCounter = map<History, nat>

  /** The input snapshot. `vocab` and `classes` are the iteration orders of
      the vocabulary set and of the key set of `classCount`. */
  datatype ClustererInput = ClustererInput(
    vocab: seq<Word>,
    wordToClass: map<Word, ClassId>,
    classes: seq<ClassId>,
    classCount: map<ClassId, nat>,
    classHistoryCount: map<ClassId, HistoryCounter>,
    historyCount: map<Word, HistoryCounter>)

  /** The result of one pass. */
  datatype ClustererOutput = ClustererOutput(
    wordToClass: map<Word, ClassId>,
    classCount: map<ClassId, nat>,
    classHistoryCount: map<ClassId, HistoryCounter>)

  /** The engine's two working tables: class -> history -> count and
      class -> number of words. */
  datatype Tables = Tables(history: map<ClassId, HistoryCounter>, count: map<ClassId, nat>)

  /** getCount of a history counter: zero for a missing history. */
  function Count(row: HistoryCounter, h: History): nat {
    if h in row then row[h] else 0
  }

  /** getCount of the class counter: zero for a missing class. */
  function Get(cc: map<ClassId, nat>, c: ClassId): nat {
    if c in cc then cc[c] else 0
  }

  /** getCounter of the class/history table: an empty row for a missing class. */
  function RowOf(t: map<ClassId, HistoryCounter>, c: ClassId): HistoryCounter {
    if c in t then t[c] else map[]
  }

  /** getCounter of the word/history table: the histories of a word. */
  function Profile(hc: map<Word, HistoryCounter>, w: Word): HistoryCounter {
    if w in hc then hc[w] else map[]
  }

  predicate Distinct<T(==)>(s: seq<T>) {
    forall i, j :: 0 <= i < j < |s| ==> s[i] != s[j]
  }

  /** Number of words of `vocab` that `assign` puts in class c. */
  function ClassSize(vocab: seq<Word>, assign: map<Word, ClassId>, c: ClassId): nat {
    if vocab == [] then 0
    else
      var w := vocab[|vocab| - 1];
      ClassSize(vocab[..|vocab| - 1], assign, c) + (if w in assign && assign[w] == c then 1 else 0)
  }

  /** Occurrences of history h summed over the words of `vocab` that
      `assign` puts in class c. */
  function ClassMass(vocab: seq<Word>, assign: map<Word, ClassId>, hc: map<Word, HistoryCounter>,
                     c: ClassId, h: History): nat
  {
    if vocab == [] then 0
    else
      var w := vocab[|vocab| - 1];
      ClassMass(vocab[..|vocab| - 1], assign, hc, c, h) + (if w in assign && assign[w] == c then Count(Profile(hc, w), h) else 0)
  }

  /** The classes that hold at least one word of `vocab`. */
  function ClassesOf(vocab: seq<Word>, assign: map<Word, ClassId>): set<ClassId> {
    set w | w in vocab && w in assign :: assign[w]
  }

  /** The word-to-class map restricted to the vocabulary. */
  function Restrict(vocab: seq<Word>, wordToClass: map<Word, ClassId>): map<Word, ClassId> {
    map w | w in vocab && w in wordToClass :: wordToClass[w]
  }

  /** The tables built from the words of `vocab`: for each class holding one
      of them, the row `chc` has for it and the number of its words. */
  function TablesFor(vocab: seq<Word>, wordToClass: map<Word, ClassId>, chc: map<ClassId, HistoryCounter>): Tables {
    Tables(RowsFor(vocab, wordToClass, chc), SizesFor(vocab, wordToClass))
  }

  /** The input rows of the classes holding a word of `vocab`. */
  function RowsFor(vocab: seq<Word>, wordToClass: map<Word, ClassId>, chc: map<ClassId, HistoryCounter>)
    : map<ClassId, HistoryCounter>
  {
    map c | c in ClassesOf(vocab, wordToClass) :: RowOf(chc, c)
  }

  /** The number of words of `vocab` in each class holding one of them. */
  function SizesFor(vocab: seq<Word>, wordToClass: map<Word, ClassId>): map<ClassId, nat> {
    map c | c in ClassesOf(vocab, wordToClass) :: ClassSize(vocab, wordToClass, c)
  }

  /** The tables the constructor builds: for each class holding a vocabulary
      word, a copy of the input's history row and the number of its words. */
  function InitialTables(input: ClustererInput): Tables {
    TablesFor(input.vocab, input.wordToClass, input.classHistoryCount)
  }

  /** The classes held by one more word of the vocabulary. */
  lemma ClassesOfStep(vocab: seq<Word>, wordToClass: map<Word, ClassId>, i: nat)
    requires i < |vocab| && vocab[i] in wordToClass
    ensures ClassesOf(vocab[..i + 1], wordToClass) == ClassesOf(vocab[..i], wordToClass) + {wordToClass[vocab[i]]}
  {
    var pre, post := vocab[..i], vocab[..i + 1];
    forall x | x in post && x in wordToClass
      ensures wordToClass[x] in ClassesOf(pre, wordToClass) + {wordToClass[vocab[i]]}
    {
      var k :| 0 <= k < |post| && post[k] == x;
      if k < i { assert pre[k] == x; }
    }
    forall x | x in pre && x in wordToClass ensures wordToClass[x] in ClassesOf(post, wordToClass) {
      var k :| 0 <= k < |pre| && pre[k] == x;
      assert post[k] == x;
    }
  }

  /** The assignment restricted to one more word of the vocabulary. */
  lemma RestrictStep(vocab: seq<Word>, wordToClass: map<Word, ClassId>, i: nat)
    requires i < |vocab| && vocab[i] in wordToClass
    ensures Restrict(vocab[..i + 1], wordToClass) == Restrict(vocab[..i], wordToClass)[vocab[i] := wordToClass[vocab[i]]]
  {
    var pre, post := vocab[..i], vocab[..i + 1];
    forall x | x in post ensures x in pre || x == vocab[i] {
      var k :| 0 <= k < |post| && post[k] == x;
      if k < i { assert pre[k] == x; }
    }
    forall x | x in pre ensures x in post {
      var k :| 0 <= k < |pre| && pre[k] == x;
      assert post[k] == x;
    }
  }

  /** Registering the next vocabulary word with its class: the word's class
      gets its input row and one more word. */
  lemma TablesForStep(vocab: seq<Word>, wordToClass: map<Word, ClassId>, chc: map<ClassId, HistoryCounter>, i: nat,
                       c: ClassId, rows: map<ClassId, HistoryCounter>, sizes: map<ClassId, nat>)
    requires i < |vocab| && vocab[i] in wordToClass && c == wordToClass[vocab[i]]
    requires rows == RowsFor(vocab[..i], wordToClass, chc) && sizes == SizesFor(vocab[..i], wordToClass)
    ensures rows[c := RowOf(chc, c)] == RowsFor(vocab[..i + 1], wordToClass, chc)
    ensures sizes[c := Get(sizes, c) + 1] == SizesFor(vocab[..i + 1], wordToClass)
  {
    ClassesOfStep(vocab, wordToClass, i);
    RowsForStep(vocab, wordToClass, chc, i);
    SizesForStep(vocab, wordToClass, i);
  }

  lemma RowsForStep(vocab: seq<Word>, wordToClass: map<Word, ClassId>, chc: map<ClassId, HistoryCounter>, i: nat)
    requires i < |vocab| && vocab[i] in wordToClass
    requires ClassesOf(vocab[..i + 1], wordToClass) == ClassesOf(vocab[..i], wordToClass) + {wordToClass[vocab[i]]}
    ensures var c := wordToClass[vocab[i]];
            RowsFor(vocab[..i + 1], wordToClass, chc) == RowsFor(vocab[..i], wordToClass, chc)[c := RowOf(chc, c)]
  {
  }

  lemma SizesForStep(vocab: seq<Word>, wordToClass: map<Word, ClassId>, i: nat)
    requires i < |vocab| && vocab[i] in wordToClass
    requires ClassesOf(vocab[..i + 1], wordToClass) == ClassesOf(vocab[..i], wordToClass) + {wordToClass[vocab[i]]}
    ensures var c := wordToClass[vocab[i]];
            var sizes := SizesFor(vocab[..i], wordToClass);
            SizesFor(vocab[..i + 1], wordToClass) == sizes[c := Get(sizes, c) + 1]
  {
    var c := wordToClass[vocab[i]];
    var pre, post := vocab[..i], vocab[..i + 1];
    assert post[..i] == pre;
    if c !in ClassesOf(pre, wordToClass) {
      EmptyClass(pre, wordToClass, map[], c, []);
    }
    var sizes := SizesFor(pre, wordToClass);
    forall x | x in ClassesOf(post, wordToClass)
      ensures ClassSize(post, wordToClass, x) == sizes[c := Get(sizes, c) + 1][x]
    {
      assert ClassSize(post, wordToClass, x) == ClassSize(pre, wordToClass, x) + (if x == c then 1 else 0);
    }
  }

  /** Tables built from a consistent input describe the input assignment:
      every class counts its words and every (class, history) entry sums
      the history counts of the class's words. */
  lemma InitialTablesDescribe(input: ClustererInput)
    requires Consistent(input)
    ensures Describes(InitialTables(input), input.vocab, input.wordToClass, input.historyCount)
  {
    var t := InitialTables(input);
    var held := ClassesOf(input.vocab, input.wordToClass);
    forall c ensures Get(t.count, c) == ClassSize(input.vocab, input.wordToClass, c) {
      if c !in held {
        EmptyClass(input.vocab, input.wordToClass, input.historyCount, c, []);
      }
    }
    forall c, h ensures Count(RowOf(t.history, c), h) == ClassMass(input.vocab, input.wordToClass, input.historyCount, c, h) {
      if c !in held {
        EmptyClass(input.vocab, input.wordToClass, input.historyCount, c, h);
      }
    }
  }

  /** The sequences are faithful enumerations of the input's sets, and every
      vocabulary word has a class. */
  predicate WellFormed(input: ClustererInput) {
    && Distinct(input.vocab)
    && Distinct(input.classes)
    && (forall c :: c in input.classes ==> c in input.classCount)
    && (forall c :: c in input.classCount ==> c in input.classes)
    && (forall w :: w in input.vocab ==> w in input.wordToClass)
  }

  /** The input's class tables describe its own word-to-class assignment:
      the class counter counts the words of each class, the class/history
      table sums the history counts of the words of each class, and every
      history listed for a word was observed at least once. The input
      tables also store no zero entry, so every class listed in the class
      counter holds a word: the objective summed from them never takes the
      logarithm of zero. */
  ghost predicate Consistent(input: ClustererInput) {
    && Describes(Tables(input.classHistoryCount, input.classCount), input.vocab, input.wordToClass, input.historyCount)
    && (forall w, h :: w in input.vocab && h in Profile(input.historyCount, w) ==> Profile(input.historyCount, w)[h] > 0)
    && (forall c :: c in input.classCount ==> input.classCount[c] > 0)
    && (forall c, h :: c in input.classHistoryCount && h in input.classHistoryCount[c] ==> input.classHistoryCount[c][h] > 0)
  }

  /** The tables count the words of each class under `assign`, and sum the
      history counts of the words of each class. */
  ghost predicate Describes(t: Tables, vocab: seq<Word>, assign: map<Word, ClassId>, hc: map<Word, HistoryCounter>) {
    && (forall c :: Get(t.count, c) == ClassSize(vocab, assign, c))
    && (forall c, h :: Count(RowOf(t.history, c), h) == ClassMass(vocab, assign, hc, c, h))
  }

  /** A word of class c is counted in c: the class has at least one word and
      at least the word's own occurrences of every history. */
  lemma {:induction false} MemberBounds(vocab: seq<Word>, assign: map<Word, ClassId>,
                                        hc: map<Word, HistoryCounter>, w: Word, h: History)
    requires w in vocab && w in assign
    ensures ClassSize(vocab, assign, assign[w]) >= 1
    ensures ClassMass(vocab, assign, hc, assign[w], h) >= Count(Profile(hc, w), h)
  {
    var last := vocab[|vocab| - 1];
    if last != w {
      assert w in vocab[..|vocab| - 1] by {
        var i :| 0 <= i < |vocab| && vocab[i] == w;
        assert i < |vocab| - 1;
        assert vocab[..|vocab| - 1][i] == w;
      }
      MemberBounds(vocab[..|vocab| - 1], assign, hc, w, h);
    }
  }

  /** A class that holds no word has no words and no history mass. */
  lemma {:induction false} EmptyClass(vocab: seq<Word>, assign: map<Word, ClassId>,
                                      hc: map<Word, HistoryCounter>, c: ClassId, h: History)
    requires c !in ClassesOf(vocab, assign)
    ensures ClassSize(vocab, assign, c) == 0
    ensures ClassMass(vocab, assign, hc, c, h) == 0
  {
    if vocab != [] {
      var init := vocab[..|vocab| - 1];
      assert ClassesOf(init, assign) <= ClassesOf(vocab, assign) by {
        forall w | w in init && w in assign ensures assign[w] in ClassesOf(vocab, assign) {
          var i :| 0 <= i < |init| && init[i] == w;
          assert vocab[i] == w;
        }
      }
      EmptyClass(init, assign, hc, c, h);
    }
  }

  /** Reassigning one word w (which occurs once in `vocab`) from its class to
      class d takes one word and the word's occurrences out of the old class,
      puts them into d, and leaves every other class as it was. */
  lemma {:induction false} ReassignShifts(vocab: seq<Word>, assign: map<Word, ClassId>,
                                          hc: map<Word, HistoryCounter>, w: Word, d: ClassId,
                                          c: ClassId, h: History)
    requires Distinct(vocab) && w in vocab && w in assign
    ensures ClassSize(vocab, assign[w := d], c) + (if c == assign[w] then 1 else 0)
            == ClassSize(vocab, assign, c) + (if c == d then 1 else 0)
    ensures ClassMass(vocab, assign[w := d], hc, c, h) + (if c == assign[w] then Count(Profile(hc, w), h) else 0)
            == ClassMass(vocab, assign, hc, c, h) + (if c == d then Count(Profile(hc, w), h) else 0)
  {
    var init := vocab[..|vocab| - 1];
    var last := vocab[|vocab| - 1];
    if last == w {
      assert w !in init by {
        forall i | 0 <= i < |init| ensures init[i] != w {
          assert init[i] == vocab[i];
        }
      }
      Unaffected(init, assign, hc, w, d, c, h);
    } else {
      assert w in init by {
        var i :| 0 <= i < |vocab| && vocab[i] == w;
        assert init[i] == w;
      }
      assert Distinct(init) by {
        forall i, j | 0 <= i < j < |init| ensures init[i] != init[j] {
          assert init[i] == vocab[i] && init[j] == vocab[j];
        }
      }
      ReassignShifts(init, assign, hc, w, d, c, h);
    }
  }

  /** The totals of a vocabulary that does not contain w do not depend on
      w's class. */
  lemma {:induction false} Unaffected(vocab: seq<Word>, assign: map<Word, ClassId>,
                                      hc: map<Word, HistoryCounter>, w: Word, d: ClassId,
                                      c: ClassId, h: History)
    requires w !in vocab
    ensures ClassSize(vocab, assign[w := d], c) == ClassSize(vocab, assign, c)
    ensures ClassMass(vocab, assign[w := d], hc, c, h) == ClassMass(vocab, assign, hc, c, h)
  {
    if vocab != [] {
      var init := vocab[..|vocab| - 1];
      assert w !in init by {
        forall i | 0 <= i < |init| ensures init[i] != w {
          assert init[i] == vocab[i];
        }
      }
      Unaffected(init, assign, hc, w, d, c, h);
    }
  }

  /** Putting a word back in the class it already has changes nothing. */
  lemma Unchanged(assign: map<Word, ClassId>, w: Word)
    requires w in assign
    ensures assign[w := assign[w]] == assign
  {
  }

  /** Giving the word at position i a class leaves the classes of the words
      after it as they were. */
  lemma LaterWordsKept(vocab: seq<Word>, i: nat, assign: map<Word, ClassId>, wordMap: map<Word, ClassId>, d: ClassId)
    requires Distinct(vocab) && i < |vocab|
    requires forall k :: i <= k < |vocab| ==> vocab[k] in assign && vocab[k] in wordMap && assign[vocab[k]] == wordMap[vocab[k]]
    ensures forall k :: i + 1 <= k < |vocab| ==>
              vocab[k] in assign[vocab[i] := d] && assign[vocab[i] := d][vocab[k]] == wordMap[vocab[k]]
  {
  }
}
