/** Queue and set operations of many clients on one shared list document.  Requests are atomic at the
    server; a remove operation is two requests, and a CAS value guards the second. */
module SharedList {
  import opened Wrappers
  import Base36

  type Item = int
  type Client = nat
  type Cas = Base36.u64

  // ---- One request at the server --------------------------------------------------------------------

  /** `version` is the document's CAS value; the server never uses 0. */
  datatype Document = Missing | List(items: seq<Item>, version: Cas)

  /** Where a sub-document remove points: "[-1]" or "[i]". */
  datatype Path = Last | At(index: nat)

  predicate PathExists(items: seq<Item>, path: Path) {
    match path
    case Last => items != []
    case At(i) => i < |items|
  }

  function Position(items: seq<Item>, path: Path): (i: nat)
    requires PathExists(items, path)
    ensures i < |items|
  {
    match path
    case Last => |items| - 1
    case At(i) => i
  }

  /** A mutation carrying CAS 0 is unconditional; any other must match the document's. */
  predicate Admits(doc: Document, cas: Cas) {
    doc.List? && (cas == 0 || cas == doc.version)
  }

  predicate CanRemove(doc: Document, path: Path, cas: Cas) {
    Admits(doc, cas) && PathExists(doc.items, path)
  }

  function Without(items: seq<Item>, i: nat): seq<Item>
    requires i < |items|
  {
    items[..i] + items[i + 1..]
  }

  function Removed(doc: Document, path: Path, cas: Cas, stamp: Cas): Document {
    if CanRemove(doc, path, cas) then List(Without(doc.items, Position(doc.items, path)), stamp) else doc
  }

  function Prepended(doc: Document, v: Item, stamp: Cas): Document {
    if doc.Missing? then doc else List([v] + doc.items, stamp)
  }

  function UniquelyAdded(doc: Document, v: Item, stamp: Cas): Document {
    if doc.Missing? || v in doc.items then doc else List(doc.items + [v], stamp)
  }

  // ---- What a client remembers between its two requests ------------------------------------------------

  /** The index of the first occurrence, or |items|. */
  function FirstIndex(items: seq<Item>, v: Item): (i: nat)
    ensures i <= |items| && v !in items[..i]
    ensures i < |items| <==> v in items
    ensures i < |items| ==> items[i] == v
  {
    if items == [] then 0
    else if items[0] == v then 0
    else
      var rest := FirstIndex(items[1..], v);
      assert items == [items[0]] + items[1..];
      assert items[..1 + rest] == [items[0]] + items[1..][..rest];
      1 + rest
  }

  datatype Pending =
    | Peeked(seen: Option<Item>, cas: Cas)
    | Found(value: Item, index: nat, cas: Cas)

  /** The CAS goes to PHP as base 36 text and is read back for the second request. */
  function Carried(cas: Cas): (r: Cas)
  {
    Base36.CasDecode(Base36.CasEncode(cas))
  }

  /** queueRemove's lookup of "[-1]".  On an empty list the failed lookup still answers, with a null value
      and no CAS, and the operation goes on with CAS 0; a missing document ends it. */
  function Peek(doc: Document): Option<Pending> {
    if doc.Missing? then None
    else if doc.items == [] then Some(Peeked(None, 0))
    else Some(Peeked(Some(doc.items[|doc.items| - 1]), Carried(doc.version)))
  }

  /** setRemove's fetch of the whole document and search for the value. */
  function Search(doc: Document, v: Item): Option<Pending> {
    if doc.Missing? || v !in doc.items then None
    else Some(Found(v, FirstIndex(doc.items, v), Carried(doc.version)))
  }

  // ---- Many clients -----------------------------------------------------------------------------------

  /** A finished queueRemove: what it returned, what its own remove request took, whether its lookup had
      seen an empty list. */
  datatype Answer = Answer(returned: Option<Item>, took: Option<Item>, sawEmpty: bool)

  /** A finished setRemove of `value`: its result, and the list before and after its remove request. */
  datatype SetAnswer = SetAnswer(value: Item, result: bool, before: Document, after: Document)

  datatype World = World(
    doc: Document,
    used: set<Cas>,
    pending: map<Client, Pending>,
    added: seq<Item>,
    answers: seq<Answer>,
    setAnswers: seq<SetAnswer>)

  datatype Step =
    | QueueAdd(v: Item, stamp: Cas)
    | QueuePeek(client: Client)
    | QueueTake(client: Client, stamp: Cas)
    | SetAdd(v: Item, stamp: Cas)
    | SetSearch(client: Client, v: Item)
    | SetTake(client: Client, stamp: Cas)
    | Overwrite(items: seq<Item>, stamp: Cas)
    | Delete

  predicate Fresh(w: World, cas: Cas) {
    cas != 0 && cas !in w.used
  }

  predicate Enabled(w: World, s: Step) {
    match s
    case QueueAdd(_, stamp) => Fresh(w, stamp)
    case QueuePeek(c) => c !in w.pending
    case QueueTake(c, stamp) => Fresh(w, stamp) && c in w.pending && w.pending[c].Peeked?
    case SetAdd(_, stamp) => Fresh(w, stamp)
    case SetSearch(c, _) => c !in w.pending
    case SetTake(c, stamp) => Fresh(w, stamp) && c in w.pending && w.pending[c].Found?
    case Overwrite(_, stamp) => Fresh(w, stamp)
    case Delete => true
  }

  function Remember(w: World, c: Client, p: Option<Pending>): World {
    if p.None? then w else w.(pending := w.pending[c := p.value])
  }

  /** queueRemove's second request: remove "[-1]" under the remembered CAS; on success return the value
      the lookup saw, otherwise null. */
  function TakeAnswer(doc: Document, p: Pending): Answer
    requires p.Peeked?
  {
    var ok := CanRemove(doc, Last, p.cas);
    Answer(if ok then p.seen else None,
           if ok then Some(doc.items[|doc.items| - 1]) else None,
           p.seen.None?)
  }

  function Next(w: World, s: Step): World
    requires Enabled(w, s)
  {
    match s
    case QueueAdd(v, stamp) =>
      w.(doc := Prepended(w.doc, v, stamp), used := w.used + {stamp},
         added := if w.doc.Missing? then w.added else w.added + [v])
    case QueuePeek(c) => Remember(w, c, Peek(w.doc))
    case QueueTake(c, stamp) =>
      var p := w.pending[c];
      w.(doc := Removed(w.doc, Last, p.cas, stamp), used := w.used + {stamp},
         pending := w.pending - {c}, answers := w.answers + [TakeAnswer(w.doc, p)])
    case SetAdd(v, stamp) =>
      w.(doc := UniquelyAdded(w.doc, v, stamp), used := w.used + {stamp})
    case SetSearch(c, v) => Remember(w, c, Search(w.doc, v))
    case SetTake(c, stamp) =>
      var p := w.pending[c];
      var after := Removed(w.doc, At(p.index), p.cas, stamp);
      w.(doc := after, used := w.used + {stamp}, pending := w.pending - {c},
         setAnswers := w.setAnswers + [SetAnswer(p.value, CanRemove(w.doc, At(p.index), p.cas), w.doc, after)])
    case Overwrite(items, stamp) => w.(doc := List(items, stamp), used := w.used + {stamp})
    case Delete => w.(doc := Missing)
  }

  /** A run: every step enabled where it happens. */
  predicate Runs(w: World, steps: seq<Step>)
    decreases |steps|
  {
    steps != [] ==> Enabled(w, steps[0]) && Runs(Next(w, steps[0]), steps[1..])
  }

  function After(w: World, steps: seq<Step>): World
    requires Runs(w, steps)
    decreases |steps|
  {
    if steps == [] then w else After(Next(w, steps[0]), steps[1..])
  }

  function Start(items: seq<Item>, version: Cas): World {
    World(List(items, version), {version}, map[], [], [], [])
  }

  // ---- The invariant ------------------------------------------------------------------------------------

  /** While the document still has the version a client saw, it still is what the client saw. */
  predicate Accurate(doc: Document, used: set<Cas>, p: Pending) {
    match p
    case Peeked(None, cas) => cas == 0
    case Peeked(Some(v), cas) =>
      && cas != 0 && cas in used
      && (doc.List? && doc.version == cas ==> doc.items != [] && doc.items[|doc.items| - 1] == v)
    case Found(v, i, cas) =>
      && cas != 0 && cas in used
      && (doc.List? && doc.version == cas ==> i < |doc.items| && doc.items[i] == v && v !in doc.items[..i])
  }

  /** queueRemove returns exactly what its own remove request took, unless its lookup saw an empty list. */
  predicate AnswerRight(a: Answer) {
    a.returned == (if a.sawEmpty then None else a.took)
  }

  /** True removed exactly the first occurrence; false changed nothing. */
  predicate SetAnswerRight(a: SetAnswer) {
    if a.result then
      && a.before.List? && a.after.List? && a.value in a.before.items
      && a.after.items == Without(a.before.items, FirstIndex(a.before.items, a.value))
    else a.after == a.before
  }

  predicate Inv(w: World) {
    && (w.doc.List? ==> w.doc.version != 0 && w.doc.version in w.used)
    && (forall c :: c in w.pending ==> Accurate(w.doc, w.used, w.pending[c]))
    && (forall i :: 0 <= i < |w.answers| ==> AnswerRight(w.answers[i]))
    && (forall i :: 0 <= i < |w.setAnswers| ==> SetAnswerRight(w.setAnswers[i]))
  }

  lemma FirstIndexUnique(items: seq<Item>, v: Item, i: nat)
    requires i < |items| && items[i] == v && v !in items[..i]
    ensures FirstIndex(items, v) == i
  {
  }

  lemma StepKeepsInv(w: World, s: Step)
    requires Inv(w) && Enabled(w, s)
    ensures Inv(Next(w, s))
  {
    hide FirstIndex, Base36.Encode, Base36.Decode;
    var w' := Next(w, s);
    match s {
      case QueuePeek(c) =>
        if w.doc.List? { Base36.CasRoundTrip(w.doc.version); }
      case SetSearch(c, v) =>
        if w.doc.List? { Base36.CasRoundTrip(w.doc.version); }
      case QueueTake(c, _) =>
        assert AnswerRight(TakeAnswer(w.doc, w.pending[c]));
      case SetTake(c, _) =>
        var p := w.pending[c];
        assert Accurate(w.doc, w.used, p);
        if CanRemove(w.doc, At(p.index), p.cas) {
          FirstIndexUnique(w.doc.items, p.value, p.index);
        }
      case _ =>
    }
  }

  /** Every reachable world satisfies the invariant: whatever clients do, and in whatever order, each
      finished queueRemove and setRemove told the truth. */
  lemma {:induction false} RunKeepsInv(w: World, steps: seq<Step>)
    requires Inv(w) && Runs(w, steps)
    ensures Inv(After(w, steps))
    decreases |steps|
  {
    hide Inv;
    if steps != [] {
      StepKeepsInv(w, steps[0]);
      RunKeepsInv(Next(w, steps[0]), steps[1..]);
    }
  }

  /** However clients interleave, a setRemove that returned true removed exactly the first occurrence of its
      value and kept the rest in order; one that returned false changed nothing. */
  lemma RemovalsAreExact(items: seq<Item>, version: Cas, steps: seq<Step>, i: nat)
    requires version != 0 && Runs(Start(items, version), steps)
    requires i < |After(Start(items, version), steps).setAnswers|
    ensures var a := After(Start(items, version), steps).setAnswers[i];
      if a.result then
        && a.before.List? && a.after.List?
        && exists k :: 0 <= k < |a.before.items| && a.before.items[k] == a.value
                       && a.value !in a.before.items[..k]
                       && a.after.items == a.before.items[..k] + a.before.items[k + 1..]
      else a.after == a.before
  {
    hide FirstIndex, After, Runs;
    RunKeepsInv(Start(items, version), steps);
    var a := After(Start(items, version), steps).setAnswers[i];
    assert SetAnswerRight(a);
    if a.result {
      var k := FirstIndex(a.before.items, a.value);
      assert a.before.items[k] == a.value && a.value !in a.before.items[..k];
    }
  }

  // ---- An unchanged CAS means an unchanged document -------------------------------------------------------

  predicate HasVersion(doc: Document, cas: Cas) {
    doc.List? && doc.version == cas
  }

  /** A version the document has left behind never returns. */
  lemma {:induction false} VersionNeverReturns(w: World, steps: seq<Step>, cas: Cas)
    requires Inv(w) && Runs(w, steps)
    requires cas in w.used && !HasVersion(w.doc, cas)
    ensures !HasVersion(After(w, steps).doc, cas)
    decreases |steps|
  {
    if steps != [] {
      StepKeepsInv(w, steps[0]);
      VersionNeverReturns(Next(w, steps[0]), steps[1..], cas);
    }
  }

  /** If after any run the document has the version it had before, it is the same document. */
  lemma {:induction false} SameVersionSameDocument(w: World, steps: seq<Step>)
    requires Inv(w) && Runs(w, steps) && w.doc.List?
    requires HasVersion(After(w, steps).doc, w.doc.version)
    ensures After(w, steps).doc == w.doc
    decreases |steps|
  {
    if steps != [] {
      var w' := Next(w, steps[0]);
      StepKeepsInv(w, steps[0]);
      if !HasVersion(w'.doc, w.doc.version) {
        VersionNeverReturns(w', steps[1..], w.doc.version);
      } else {
        SameVersionSameDocument(w', steps[1..]);
      }
    }
  }

  // ---- First in, first out ----------------------------------------------------------------------------------

  /** The operations of a queue, and reads. */
  predicate QueueStep(s: Step) {
    s.QueueAdd? || s.QueuePeek? || s.QueueTake? || s.SetSearch?
  }

  function Reversed(items: seq<Item>): (r: seq<Item>)
    ensures |r| == |items|
  {
    if items == [] then [] else Reversed(items[1..]) + [items[0]]
  }

  lemma {:induction false} ReversedAppend(items: seq<Item>, v: Item)
    ensures Reversed(items + [v]) == [v] + Reversed(items)
  {
    if items != [] {
      assert (items + [v])[1..] == items[1..] + [v];
      ReversedAppend(items[1..], v);
    }
  }

  /** The elements queueRemove calls took, in the order they took them. */
  function Taken(answers: seq<Answer>): seq<Item> {
    if answers == [] then []
    else
      var a := answers[|answers| - 1];
      Taken(answers[..|answers| - 1]) + (if a.took.Some? then [a.took.value] else [])
  }

  /** The elements queueRemove calls returned. */
  function Delivered(answers: seq<Answer>): seq<Item> {
    if answers == [] then []
    else
      var a := answers[|answers| - 1];
      Delivered(answers[..|answers| - 1]) + (if a.returned.Some? then [a.returned.value] else [])
  }

  lemma TakenAppend(answers: seq<Answer>, a: Answer)
    ensures Taken(answers + [a]) == Taken(answers) + (if a.took.Some? then [a.took.value] else [])
  {
    assert (answers + [a])[..|answers|] == answers;
  }

  /** Elements that entered, oldest first: the ones taken, then the ones still there. */
  predicate Fifo(first: seq<Item>, w: World) {
    w.doc.List? && Reversed(first) + w.added == Taken(w.answers) + Reversed(w.doc.items)
  }

  lemma AddKeepsFifo(before: seq<Item>, taken: seq<Item>, items: seq<Item>, v: Item)
    requires before == taken + Reversed(items)
    ensures before + [v] == taken + Reversed([v] + items)
  {
    assert ([v] + items)[1..] == items;
    assert taken + (Reversed(items) + [v]) == (taken + Reversed(items)) + [v];
  }

  lemma TakeKeepsFifo(before: seq<Item>, taken: seq<Item>, items: seq<Item>)
    requires items != [] && before == taken + Reversed(items)
    ensures before == taken + [items[|items| - 1]] + Reversed(Without(items, |items| - 1))
  {
    var front, v := items[..|items| - 1], items[|items| - 1];
    assert items == front + [v] && Without(items, |items| - 1) == front;
    ReversedAppend(front, v);
  }

  lemma StepKeepsFifo(first: seq<Item>, w: World, s: Step)
    requires Fifo(first, w) && Enabled(w, s) && QueueStep(s)
    ensures Fifo(first, Next(w, s))
  {
    hide Taken, Reversed, Without, Base36.Encode, Base36.Decode;
    match s {
      case QueueAdd(v, stamp) =>
        AddKeepsFifo(Reversed(first) + w.added, Taken(w.answers), w.doc.items, v);
        assert Reversed(first) + (w.added + [v]) == (Reversed(first) + w.added) + [v];
      case QueueTake(c, stamp) =>
        TakenAppend(w.answers, TakeAnswer(w.doc, w.pending[c]));
        if CanRemove(w.doc, Last, w.pending[c].cas) {
          TakeKeepsFifo(Reversed(first) + w.added, Taken(w.answers), w.doc.items);
        }
      case _ =>
    }
  }

  /** FIFO over every run of any number of clients: the elements first in the queue and then added, in
      order, are the elements taken, in order, followed by the current list from its end. */
  lemma {:induction false} RunIsFifo(first: seq<Item>, w: World, steps: seq<Step>)
    requires Fifo(first, w) && Runs(w, steps)
    requires forall i :: 0 <= i < |steps| ==> QueueStep(steps[i])
    ensures Fifo(first, After(w, steps))
    decreases |steps|
  {
    hide Fifo;
    if steps != [] {
      StepKeepsFifo(first, w, steps[0]);
      assert forall i :: 0 <= i < |steps[1..]| ==> steps[1..][i] == steps[i + 1];
      RunIsFifo(first, Next(w, steps[0]), steps[1..]);
    }
  }

  lemma QueueIsFifo(items: seq<Item>, version: Cas, steps: seq<Step>)
    requires version != 0 && Runs(Start(items, version), steps)
    requires forall i :: 0 <= i < |steps| ==> QueueStep(steps[i])
    ensures var w := After(Start(items, version), steps);
      && w.doc.List?
      && Reversed(items) + w.added == Taken(w.answers) + Reversed(w.doc.items)
      && forall i :: 0 <= i < |w.answers| ==> AnswerRight(w.answers[i])
  {
    RunIsFifo(items, Start(items, version), steps);
    RunKeepsInv(Start(items, version), steps);
  }

  /** No remove request after an empty lookup found an element. */
  predicate NothingLost(answers: seq<Answer>) {
    forall i :: 0 <= i < |answers| ==> !(answers[i].sawEmpty && answers[i].took.Some?)
  }

  lemma {:induction false} DeliveredUnlessLost(answers: seq<Answer>)
    requires forall i :: 0 <= i < |answers| ==> AnswerRight(answers[i])
    ensures |Delivered(answers)| <= |Taken(answers)|
    ensures Delivered(answers) == Taken(answers) <==> NothingLost(answers)
  {
    if answers != [] {
      var front, a := answers[..|answers| - 1], answers[|answers| - 1];
      assert answers == front + [a];
      DeliveredUnlessLost(front);
      if Delivered(front) == Taken(front) {
        assert forall i :: 0 <= i < |front| ==> front[i] == answers[i];
      } else {
        var i :| 0 <= i < |front| && front[i].sawEmpty && front[i].took.Some?;
        assert answers[i] == front[i];
        LastDiffers(Delivered(front), Taken(front), a);
      }
    }
  }

  /** A client that saw an empty list sends its unconditional remove to a list that has elements. */
  predicate TakesBlindly(w: World, s: Step)
    requires Enabled(w, s)
  {
    s.QueueTake? && w.pending[s.client] == Peeked(None, 0) && w.doc.List? && w.doc.items != []
  }

  /** In no step of the run does that happen. */
  predicate NeverBlind(w: World, steps: seq<Step>)
    requires Runs(w, steps)
    decreases |steps|
  {
    steps != [] ==> !TakesBlindly(w, steps[0]) && NeverBlind(Next(w, steps[0]), steps[1..])
  }

  lemma StepLoses(w: World, s: Step)
    requires Inv(w) && Enabled(w, s)
    ensures NothingLost(Next(w, s).answers) <==> NothingLost(w.answers) && !TakesBlindly(w, s)
  {
    hide Base36.Encode, Base36.Decode;
    var answers, answers' := w.answers, Next(w, s).answers;
    assert answers <= answers';
    assert forall i :: 0 <= i < |answers| ==> answers[i] == answers'[i];
    if s.QueueTake? {
      assert Accurate(w.doc, w.used, w.pending[s.client]);
      assert answers'[|answers|] == TakeAnswer(w.doc, w.pending[s.client]);
    }
  }

  lemma {:induction false} RunLoses(w: World, steps: seq<Step>)
    requires Inv(w) && Runs(w, steps)
    ensures NothingLost(After(w, steps).answers) <==> NothingLost(w.answers) && NeverBlind(w, steps)
    decreases |steps|
  {
    hide Inv, NothingLost, TakesBlindly;
    if steps != [] {
      StepKeepsInv(w, steps[0]);
      StepLoses(w, steps[0]);
      RunLoses(Next(w, steps[0]), steps[1..]);
    }
  }

  /** In every run of any clients and operations: the elements returned are exactly the elements taken, in
      order, if and only if no client that saw an empty list ever sends its remove to a list that has
      elements by then. */
  lemma DeliveredIsTaken(items: seq<Item>, version: Cas, steps: seq<Step>)
    requires version != 0 && Runs(Start(items, version), steps)
    ensures Delivered(After(Start(items, version), steps).answers) == Taken(After(Start(items, version), steps).answers)
       <==> NeverBlind(Start(items, version), steps)
  {
    hide Next, Enabled, After, Runs, NeverBlind;
    RunKeepsInv(Start(items, version), steps);
    RunLoses(Start(items, version), steps);
    DeliveredUnlessLost(After(Start(items, version), steps).answers);
  }

  lemma LastDiffers(d: seq<Item>, t: seq<Item>, a: Answer)
    requires AnswerRight(a) && |d| <= |t| && d != t
    ensures d + (if a.returned.Some? then [a.returned.value] else [])
         != t + (if a.took.Some? then [a.took.value] else [])
  {
    var d' := d + (if a.returned.Some? then [a.returned.value] else []);
    var t' := t + (if a.took.Some? then [a.took.value] else []);
    if |d'| == |t'| {
      assert |d| == |t| && d'[..|d|] == d && t'[..|t|] == t;
    }
  }

  /** Such a loss: a lookup sees an empty queue, another client adds 7, and the unguarded remove takes 7
      while its caller is told the queue was empty. */
  lemma LostElement()
    ensures var steps := [QueuePeek(0), QueueAdd(7, 2), QueueTake(0, 3)];
      && Runs(Start([], 1), steps)
      && var w := After(Start([], 1), steps);
         w.doc == List([], 3) && w.answers == [Answer(None, Some(7), true)]
  {
    var w0 := Start([], 1);
    var w1 := Next(w0, QueuePeek(0));
    var w2 := Next(w1, QueueAdd(7, 2));
    var w3 := Next(w2, QueueTake(0, 3));
    var steps := [QueuePeek(0), QueueAdd(7, 2), QueueTake(0, 3)];
    assert steps[1..] == [QueueAdd(7, 2), QueueTake(0, 3)] && steps[1..][1..] == [QueueTake(0, 3)];
    assert steps[1..][1..][1..] == [];
    assert Runs(w3, []) && After(w3, []) == w3;
    assert w2.doc.items == [7] && Without([7], 0) == [];
  }

  // ---- Sets ---------------------------------------------------------------------------------------------------

  predicate NoDuplicates(items: seq<Item>) {
    forall i, j :: 0 <= i < j < |items| ==> items[i] != items[j]
  }

  predicate SetStep(s: Step) {
    s.SetAdd? || s.SetSearch? || s.SetTake? || s.QueuePeek?
  }

  lemma StepKeepsSet(w: World, s: Step)
    requires Enabled(w, s) && SetStep(s)
    requires w.doc.List? && NoDuplicates(w.doc.items)
    ensures Next(w, s).doc.List? && NoDuplicates(Next(w, s).doc.items)
  {
    hide FirstIndex, Base36.Encode, Base36.Decode;
  }

  /** With only set operations the list stays free of duplicates, in every run of any number of clients. */
  lemma {:induction false} RunKeepsSet(w: World, steps: seq<Step>)
    requires Runs(w, steps)
    requires forall i :: 0 <= i < |steps| ==> SetStep(steps[i])
    requires w.doc.List? && NoDuplicates(w.doc.items)
    ensures After(w, steps).doc.List? && NoDuplicates(After(w, steps).doc.items)
    decreases |steps|
  {
    hide NoDuplicates;
    if steps != [] {
      StepKeepsSet(w, steps[0]);
      assert forall i :: 0 <= i < |steps[1..]| ==> steps[1..][i] == steps[i + 1];
      RunKeepsSet(Next(w, steps[0]), steps[1..]);
    }
  }

  // ---- An operation that nobody disturbs ------------------------------------------------------------------------

  /** Undisturbed, queueRemove takes and returns the last element, or returns null on an empty list. */
  lemma QueueRemoveAlone(w: World, c: Client, stamp: Cas)
    requires Inv(w) && w.doc.List? && c !in w.pending && Fresh(w, stamp)
    ensures var w' := Next(Next(w, QueuePeek(c)), QueueTake(c, stamp));
      var items := w.doc.items;
      && w'.pending == w.pending
      && w'.answers == w.answers + [if items == [] then Answer(None, None, true)
                                    else Answer(Some(items[|items| - 1]), Some(items[|items| - 1]), false)]
      && w'.doc == (if items == [] then w.doc else List(items[..|items| - 1], stamp))
  {
    hide Base36.Encode, Base36.Decode;
    Base36.CasRoundTrip(w.doc.version);
    var w1 := Next(w, QueuePeek(c));
    assert w1.pending - {c} == w.pending;
    if w.doc.items != [] {
      assert Without(w.doc.items, |w.doc.items| - 1) == w.doc.items[..|w.doc.items| - 1];
    }
  }

  /** Undisturbed, setRemove of a present value succeeds and removes its first occurrence. */
  lemma SetRemoveAlone(w: World, c: Client, v: Item, stamp: Cas)
    requires Inv(w) && w.doc.List? && c !in w.pending && Fresh(w, stamp)
    ensures v !in w.doc.items ==> Next(w, SetSearch(c, v)) == w
    ensures v in w.doc.items ==>
              var w' := Next(Next(w, SetSearch(c, v)), SetTake(c, stamp));
              && w'.pending == w.pending
              && w'.setAnswers == w.setAnswers + [SetAnswer(v, true, w.doc, w'.doc)]
              && w'.doc == List(Without(w.doc.items, FirstIndex(w.doc.items, v)), stamp)
  {
    hide Base36.Encode, Base36.Decode;
    Base36.CasRoundTrip(w.doc.version);
    if v in w.doc.items {
      assert Next(w, SetSearch(c, v)).pending - {c} == w.pending;
    }
  }

  // ---- The search loops -----------------------------------------------------------------------------------------

  /** setRemove's loop: `found` is -1 or the first index. */
  method FindIndex(items: seq<Item>, v: Item) returns (found: int)
    ensures found == (if v in items then FirstIndex(items, v) else -1)
  {
    var index := 0;
    found := -1;
    while index < |items|
      invariant index <= |items| && v !in items[..index]
    {
      if items[index] == v {
        FirstIndexUnique(items, v, index);
        found := index;
        break;
      }
      index := index + 1;
    }
  }

  /** setExists' loop over the fetched document; a missing document is an exception. */
  method SetExists(doc: Document, v: Item) returns (found: Option<bool>)
    ensures found == (if doc.Missing? then None else Some(v in doc.items))
  {
    if doc.Missing? {
      return None;
    }
    var k := 0;
    while k < |doc.items|
      invariant k <= |doc.items| && v !in doc.items[..k]
    {
      if doc.items[k] == v {
        return Some(true);
      }
      k := k + 1;
    }
    return Some(false);
  }
}
