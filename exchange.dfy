/** One exchange step, stated on values: where the word may go, what each
    destination is worth when the objective is recomputed from scratch,
    and why the choice the engine makes from its incremental values is the
    best placement of the word, never lowers the objective and keeps the
    tables describing the assignment. */
module Exchange {
  import opened Counts
  import opened ClassObjective
  import opened CandidateScan

  /** The objective once the word of class cur with histories wh is placed
      in class c: the tables as they are when c is cur, the word moved
      otherwise. */
  ghost function PlacedObjective(f: NLogN, t: Tables, cur: ClassId, wh: HistoryCounter, c: ClassId): real
    requires CanLeave(t, cur, wh)
  {
    if c == cur then Objective(f, t) else Objective(f, Moved(t, cur, c, wh))
  }

  ghost function PlacedObjectives(f: NLogN, t: Tables, cur: ClassId, wh: HistoryCounter): ClassId -> real
    requires CanLeave(t, cur, wh)
  {
    c => PlacedObjective(f, t, cur, wh, c)
  }

  /** The engine offers each class c other than cur at the reduced
      objective plus the change of joining c; that is exactly the objective
      recomputed after moving the word to c. */
  lemma CandidatesArePlacements(f: NLogN, t: Tables, cur: ClassId, wh: HistoryCounter, reduced: real)
    requires CanLeave(t, cur, wh)
    requires reduced == Objective(f, Leave(t, cur, wh))
    ensures forall c :: c != cur ==> CandidateValues(f, t, wh, reduced)(c) == PlacedObjectives(f, t, cur, wh)(c)
  {
    forall c | c != cur
      ensures CandidateValues(f, t, wh, reduced)(c) == PlacedObjectives(f, t, cur, wh)(c)
    {
      CandidateIsPlacement(f, t, cur, wh, reduced, c);
      assert CandidateValues(f, t, wh, reduced)(c) == CandidateValue(f, t, wh, reduced, c);
      assert PlacedObjectives(f, t, cur, wh)(c) == PlacedObjective(f, t, cur, wh, c);
    }
  }

  /** The same for one class c. */
  lemma CandidateIsPlacement(f: NLogN, t: Tables, cur: ClassId, wh: HistoryCounter, reduced: real, c: ClassId)
    requires CanLeave(t, cur, wh) && c != cur
    requires reduced == Objective(f, Leave(t, cur, wh))
    ensures CandidateValue(f, t, wh, reduced, c) == PlacedObjective(f, t, cur, wh, c)
  {
    calc {
      CandidateValue(f, t, wh, reduced, c);
      reduced + JoinGain(f, t, c, wh);
      == { JoinObjective(f, t, c, wh); }
      reduced + (Objective(f, Join(t, c, wh)) - Objective(f, t));
      == { CandidateSplits(f, t, cur, c, wh); }
      Objective(f, Moved(t, cur, c, wh));
      PlacedObjective(f, t, cur, wh, c);
    }
  }

  /** What the scan over the placements promises: the objective never
      falls; the word stays only when no class beats staying; a move
      strictly raises the objective and lands on a class that was offered;
      no offered class would have been better; and of several equally good
      classes the first one offered wins. */
  lemma {:induction false} ExchangeChoice(f: NLogN, t: Tables, cur: ClassId, wh: HistoryCounter, classes: seq<ClassId>)
    requires CanLeave(t, cur, wh)
    ensures var r := Scan(classes, cur, PlacedObjectives(f, t, cur, wh), cur, Objective(f, t));
            && r.1 >= Objective(f, t)
            && (r.0 == cur ==> r.1 == Objective(f, t))
            && (r.0 != cur ==> r.0 in classes && r.1 > Objective(f, t) && r.1 == Objective(f, Moved(t, cur, r.0, wh)))
            && (forall j :: 0 <= j < |classes| && classes[j] != cur ==>
                  Objective(f, Moved(t, cur, classes[j], wh)) <= r.1)
            && (r.0 != cur ==>
                  exists k :: 0 <= k < |classes| && classes[k] == r.0 &&
                    forall j :: 0 <= j < k && classes[j] != cur ==> Objective(f, Moved(t, cur, classes[j], wh)) < r.1)
  {
    var value := PlacedObjectives(f, t, cur, wh);
    var r := Scan(classes, cur, value, cur, Objective(f, t));
    ScanImproves(classes, cur, value, Objective(f, t));
    ScanIsMaximal(classes, cur, value, cur, Objective(f, t));
    ScanIsEarliest(classes, cur, value, Objective(f, t));
    assert forall c :: c != cur ==> value(c) == Objective(f, Moved(t, cur, c, wh)) by {
      forall c | c != cur ensures value(c) == Objective(f, Moved(t, cur, c, wh)) {
        assert value(c) == PlacedObjective(f, t, cur, wh, c);
      }
    }
  }

  /** A word of the vocabulary can always leave its class in tables that
      describe the assignment, when every history listed for it was seen. */
  lemma DescribedCanLeave(t: Tables, vocab: seq<Word>, assign: map<Word, ClassId>,
                          hc: map<Word, HistoryCounter>, w: Word)
    requires Describes(t, vocab, assign, hc) && w in vocab && w in assign
    requires forall h :: h in Profile(hc, w) ==> Profile(hc, w)[h] > 0
    ensures CanLeave(t, assign[w], Profile(hc, w))
  {
    forall h | h in Profile(hc, w)
      ensures 0 < Count(RowOf(t.history, assign[w]), h) && Profile(hc, w)[h] <= Count(RowOf(t.history, assign[w]), h)
    {
      MemberBounds(vocab, assign, hc, w, h);
    }
    MemberBounds(vocab, assign, hc, w, []);
  }

  /** Moving a word in the tables matches moving it in the assignment: the
      moved tables describe the assignment with the word in its new class. */
  lemma MovedDescribes(t: Tables, vocab: seq<Word>, assign: map<Word, ClassId>,
                       hc: map<Word, HistoryCounter>, w: Word, d: ClassId)
    requires Describes(t, vocab, assign, hc) && Distinct(vocab) && w in vocab && w in assign
    requires CanLeave(t, assign[w], Profile(hc, w)) && d != assign[w]
    ensures Describes(Moved(t, assign[w], d, Profile(hc, w)), vocab, assign[w := d], hc)
  {
    var m := Moved(t, assign[w], d, Profile(hc, w));
    forall c ensures Get(m.count, c) == ClassSize(vocab, assign[w := d], c) {
      MoveEffect(t, assign[w], d, Profile(hc, w), c, []);
      ReassignShifts(vocab, assign, hc, w, d, c, []);
    }
    forall c, h ensures Count(RowOf(m.history, c), h) == ClassMass(vocab, assign[w := d], hc, c, h) {
      MoveEffect(t, assign[w], d, Profile(hc, w), c, h);
      ReassignShifts(vocab, assign, hc, w, d, c, h);
    }
  }

  /** The engine invariant on values: the input is well formed and
      consistent, the word map is the input's restricted to the vocabulary,
      every vocabulary word has a class in `assign`, the tables describe
      `assign`, and `value` is the objective recomputed from the tables. */
  ghost predicate Engine(input: ClustererInput, f: NLogN, wordMap: map<Word, ClassId>, t: Tables,
                         assign: map<Word, ClassId>, value: real)
  {
    && WellFormed(input)
    && Consistent(input)
    && wordMap == Restrict(input.vocab, input.wordToClass)
    && (forall w :: w in input.vocab ==> w in assign)
    && Describes(t, input.vocab, assign, input.historyCount)
    && value == Objective(f, t)
  }

  /** Moving a vocabulary word to another class keeps the engine invariant,
      with the word's new class in the assignment and the objective of the
      moved tables as the running value. */
  lemma EngineMove(input: ClustererInput, f: NLogN, wordMap: map<Word, ClassId>, t: Tables,
                   assign: map<Word, ClassId>, value: real, w: Word, d: ClassId)
    requires Engine(input, f, wordMap, t, assign, value) && w in input.vocab
    requires CanLeave(t, assign[w], Profile(input.historyCount, w)) && d != assign[w]
    ensures Engine(input, f, wordMap, Moved(t, assign[w], d, Profile(input.historyCount, w)), assign[w := d],
                   Objective(f, Moved(t, assign[w], d, Profile(input.historyCount, w))))
  {
    MovedDescribes(t, input.vocab, assign, input.historyCount, w, d);
  }

  /** The choice for one word, on values: the engine offers each class at
      its incremental value, starting from the objective with the word taken
      out; that scan is the scan over the recomputed placements, so staying
      keeps the objective and a move strictly raises it to the objective of
      the moved tables. */
  lemma ChoiceOutcome(f: NLogN, t: Tables, cur: ClassId, wh: HistoryCounter, classes: seq<ClassId>,
                      value: real, reduced: real, r: (ClassId, real))
    requires CanLeave(t, cur, wh) && value == Objective(f, t)
    requires reduced == value + (Objective(f, Leave(t, cur, wh)) - Objective(f, t))
    requires r == Scan(classes, cur, CandidateValues(f, t, wh, reduced), cur, value)
    ensures r == Scan(classes, cur, PlacedObjectives(f, t, cur, wh), cur, value)
    ensures r.0 == cur ==> r.1 == value
    ensures r.0 != cur ==> r.1 > value && r.1 == Objective(f, Moved(t, cur, r.0, wh))
  {
    CandidatesArePlacements(f, t, cur, wh, reduced);
    ScanAgree(classes, cur, CandidateValues(f, t, wh, reduced), PlacedObjectives(f, t, cur, wh), cur, value);
    ExchangeChoice(f, t, cur, wh, classes);
  }

  /** The step of the pass for word w, on values: the word's class is read
      from the word map; when the word can leave it, the word is given the
      class the scan over the recomputed placements chooses (its own class
      when no other is strictly better), and the tables are moved when that
      class is another one. */
  ghost function PassStep(f: NLogN, input: ClustererInput, wordMap: map<Word, ClassId>,
                          state: (Tables, map<Word, ClassId>), w: Word): (Tables, map<Word, ClassId>)
  {
    var wh := Profile(input.historyCount, w);
    if w in wordMap && CanLeave(state.0, wordMap[w], wh) then
      var cur := wordMap[w];
      var r := Scan(input.classes, cur, PlacedObjectives(f, state.0, cur, wh), cur, Objective(f, state.0));
      (if r.0 == cur then state.0 else Moved(state.0, cur, r.0, wh), state.1[w := r.0])
    else state
  }

  /** The pass over `words` in order, from the tables and assignment in
      `start`: every word sees the moves of the words before it. */
  ghost function PassOver(f: NLogN, input: ClustererInput, wordMap: map<Word, ClassId>,
                          start: (Tables, map<Word, ClassId>), words: seq<Word>): (Tables, map<Word, ClassId>)
    decreases |words|
  {
    if words == [] then start
    else PassStep(f, input, wordMap, PassOver(f, input, wordMap, start, words[..|words| - 1]), words[|words| - 1])
  }

  /** The pass never lowers the objective: each step either keeps the
      tables or moves the word to a class that raises the objective. */
  lemma {:induction false} PassImproves(f: NLogN, input: ClustererInput, wordMap: map<Word, ClassId>,
                                        start: (Tables, map<Word, ClassId>), words: seq<Word>)
    ensures Objective(f, PassOver(f, input, wordMap, start, words).0) >= Objective(f, start.0)
    decreases |words|
  {
    if words != [] {
      var pre := words[..|words| - 1];
      var w := words[|words| - 1];
      PassImproves(f, input, wordMap, start, pre);
      var prev := PassOver(f, input, wordMap, start, pre);
      var wh := Profile(input.historyCount, w);
      if w in wordMap && CanLeave(prev.0, wordMap[w], wh) {
        ExchangeChoice(f, prev.0, wordMap[w], wh, input.classes);
      }
    }
  }

  /** One word of the engine's pass is one step of the pass on values: when
      the tables reached after the first i words are those of the pass over
      them, the word at position i is placed by the scan over the
      recomputed placements starting at the objective, and the tables and
      the assignment are updated with that choice, the result is the pass
      over the first i + 1 words. */
  lemma PassAdvance(f: NLogN, input: ClustererInput, wordMap: map<Word, ClassId>,
                    start: (Tables, map<Word, ClassId>), i: nat, w: Word, wh: HistoryCounter,
                    t: Tables, assign: map<Word, ClassId>, value: real, r: (ClassId, real),
                    t2: Tables, assign2: map<Word, ClassId>)
    requires i < |input.vocab| && w == input.vocab[i] && wh == Profile(input.historyCount, w)
    requires (t, assign) == PassOver(f, input, wordMap, start, input.vocab[..i])
    requires value == Objective(f, t)
    requires w in wordMap && CanLeave(t, wordMap[w], wh)
    requires r == Scan(input.classes, wordMap[w], PlacedObjectives(f, t, wordMap[w], wh), wordMap[w], value)
    requires t2 == (if r.0 == wordMap[w] then t else Moved(t, wordMap[w], r.0, wh))
    requires assign2 == assign[w := r.0]
    ensures (t2, assign2) == PassOver(f, input, wordMap, start, input.vocab[..i + 1])
  {
    assert input.vocab[..i + 1][..i] == input.vocab[..i];
  }
}
