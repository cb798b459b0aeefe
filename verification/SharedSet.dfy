/** What is in a shared set: the effect of one setAdd, and membership after every run of set operations. */
module SharedSet {
  import opened Wrappers
  import Base36
  import opened SharedList

  /** setAdd puts an absent value behind the others, under a new CAS; a present value or a missing document
      changes nothing. */
  lemma SetAddRule(w: World, v: Item, stamp: Cas)
    requires Enabled(w, SetAdd(v, stamp))
    ensures var w' := Next(w, SetAdd(v, stamp));
      && w'.doc == (if w.doc.List? && v !in w.doc.items then List(w.doc.items + [v], stamp) else w.doc)
      && w'.pending == w.pending && w'.setAnswers == w.setAnswers && w'.answers == w.answers
  {
  }

  /** Without a document, lookups remember nothing and additions and removals create and find nothing. */
  lemma MissingRule(w: World, s: Step)
    requires w.doc.Missing? && Enabled(w, s) && !s.Overwrite?
    ensures Next(w, s).doc.Missing? && Next(w, s).added == w.added
    ensures s.QueuePeek? || s.SetSearch? || s.Delete? ==> Next(w, s) == w
    ensures s.QueueTake? ==> Next(w, s).answers[|w.answers|].returned.None?
    ensures s.SetTake? ==> !Next(w, s).setAnswers[|w.setAnswers|].result
  {
  }

  /** The step is a setRemove of v finishing with true. */
  predicate TakesOut(w: World, s: Step, v: Item)
    requires Enabled(w, s)
  {
    s.SetTake? && w.pending[s.client].value == v && Next(w, s).setAnswers[|w.setAnswers|].result
  }

  /** Whether v belongs to the set after the run: the last addition of v or successful removal of v decides, or
      where there is neither, whether it belonged before. */
  predicate Belongs(w: World, steps: seq<Step>, v: Item, before: bool)
    requires Runs(w, steps)
    decreases |steps|
  {
    if steps == [] then before
    else
      Belongs(Next(w, steps[0]), steps[1..], v,
              (steps[0].SetAdd? && steps[0].v == v) || (before && !TakesOut(w, steps[0], v)))
  }

  lemma WithoutIsWithout(items: seq<Item>, i: nat, v: Item)
    requires i < |items| && NoDuplicates(items)
    ensures v in Without(items, i) <==> v in items && v != items[i]
  {
    if v in items && v != items[i] {
      var j :| 0 <= j < |items| && items[j] == v;
      assert v == Without(items, i)[if j < i then j else j - 1];
    }
  }

  lemma StepBelongs(w: World, s: Step, v: Item)
    requires Inv(w) && Enabled(w, s) && SetStep(s) && w.doc.List? && NoDuplicates(w.doc.items)
    ensures Next(w, s).doc.List?
    ensures v in Next(w, s).doc.items
       <==> (s.SetAdd? && s.v == v) || (v in w.doc.items && !TakesOut(w, s, v))
  {
    hide Without, NoDuplicates, FirstIndex, Base36.Encode, Base36.Decode;
    if s.SetTake? {
      var p := w.pending[s.client];
      assert Accurate(w.doc, w.used, p);
      if CanRemove(w.doc, At(p.index), p.cas) {
        WithoutIsWithout(w.doc.items, p.index, v);
      }
    }
  }

  /** After every run of set operations of any clients, exactly the values that belong are in the list. */
  lemma {:induction false} SetMembership(w: World, steps: seq<Step>, v: Item)
    requires Inv(w) && Runs(w, steps) && w.doc.List? && NoDuplicates(w.doc.items)
    requires forall i :: 0 <= i < |steps| ==> SetStep(steps[i])
    ensures After(w, steps).doc.List?
    ensures v in After(w, steps).doc.items <==> Belongs(w, steps, v, v in w.doc.items)
    decreases |steps|
  {
    hide Inv, NoDuplicates, TakesOut;
    if steps != [] {
      StepBelongs(w, steps[0], v);
      StepKeepsInv(w, steps[0]);
      StepKeepsSet(w, steps[0]);
      assert forall i :: 0 <= i < |steps[1..]| ==> steps[1..][i] == steps[i + 1];
      SetMembership(Next(w, steps[0]), steps[1..], v);
    }
  }

  lemma {:induction false} AnswersStay(w: World, steps: seq<Step>)
    requires Runs(w, steps)
    ensures w.setAnswers <= After(w, steps).setAnswers
    decreases |steps|
  {
    if steps != [] {
      AnswersStay(Next(w, steps[0]), steps[1..]);
    }
  }

  lemma {:induction false} StaysUnlessRemoved(w: World, steps: seq<Step>, v: Item)
    requires Inv(w) && Runs(w, steps) && w.doc.List? && NoDuplicates(w.doc.items) && v in w.doc.items
    requires forall i :: 0 <= i < |steps| ==> SetStep(steps[i])
    ensures After(w, steps).doc.List?
    ensures v in After(w, steps).doc.items
            || exists i :: |w.setAnswers| <= i < |After(w, steps).setAnswers|
                           && After(w, steps).setAnswers[i].value == v && After(w, steps).setAnswers[i].result
    decreases |steps|
  {
    hide Inv, NoDuplicates;
    SetMembership(w, steps, v);
    if steps != [] {
      var w' := Next(w, steps[0]);
      StepBelongs(w, steps[0], v);
      StepKeepsInv(w, steps[0]);
      StepKeepsSet(w, steps[0]);
      assert forall i :: 0 <= i < |steps[1..]| ==> steps[1..][i] == steps[i + 1];
      AnswersStay(w', steps[1..]);
      if TakesOut(w, steps[0], v) {
        var a := w'.setAnswers[|w.setAnswers|];
        assert a == After(w', steps[1..]).setAnswers[|w.setAnswers|];
      } else {
        StaysUnlessRemoved(w', steps[1..], v);
      }
    }
  }

  /** A value added is in the list after every further run of set operations, unless a setRemove of it that
      finished later returned true. */
  lemma AddedStays(w: World, v: Item, stamp: Cas, steps: seq<Step>)
    requires Inv(w) && w.doc.List? && NoDuplicates(w.doc.items)
    requires Enabled(w, SetAdd(v, stamp)) && Runs(Next(w, SetAdd(v, stamp)), steps)
    requires forall i :: 0 <= i < |steps| ==> SetStep(steps[i])
    ensures var w' := After(Next(w, SetAdd(v, stamp)), steps);
      && w'.doc.List?
      && (v in w'.doc.items
          || exists i :: |w.setAnswers| <= i < |w'.setAnswers| && w'.setAnswers[i].value == v && w'.setAnswers[i].result)
  {
    hide Inv, NoDuplicates, After, Runs;
    SetAddRule(w, v, stamp);
    StepKeepsInv(w, SetAdd(v, stamp));
    StepKeepsSet(w, SetAdd(v, stamp));
    StaysUnlessRemoved(Next(w, SetAdd(v, stamp)), steps, v);
  }
}
