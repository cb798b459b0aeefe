/** The responses of one batch of requests: callbacks push them onto a list, the operation then walks it
    and builds what PHP sees. */
module Responses {
  import opened Wrappers

  const SUCCESS: nat := 0

  /** A store response: its error code, key and CAS. */
  datatype Response = Response(err: nat, key: string, cas: nat)

  /** The first failure, or success. */
  function FirstError(rs: seq<Response>): nat {
    if rs == [] then SUCCESS
    else
      var e := FirstError(rs[..|rs| - 1]);
      if e == SUCCESS then rs[|rs| - 1].err else e
  }

  /** Success means that every response succeeded; any other code is that of the earliest failure. */
  lemma {:induction false} FirstErrorIsEarliest(rs: seq<Response>)
    ensures FirstError(rs) == SUCCESS <==> forall i :: 0 <= i < |rs| ==> rs[i].err == SUCCESS
    ensures FirstError(rs) != SUCCESS ==>
              exists i :: 0 <= i < |rs| && rs[i].err == FirstError(rs) && forall j :: 0 <= j < i ==> rs[j].err == SUCCESS
  {
    if rs != [] {
      var front := rs[..|rs| - 1];
      FirstErrorIsEarliest(front);
      assert forall i :: 0 <= i < |front| ==> front[i] == rs[i];
      if FirstError(front) == SUCCESS && rs[|front|].err != SUCCESS {
        assert rs[|front|].err == FirstError(rs);
      }
    }
  }

  lemma FirstErrorAppend(rs: seq<Response>, r: Response)
    ensures FirstError(rs + [r]) == (if FirstError(rs) == SUCCESS then r.err else FirstError(rs))
    ensures FirstError([]) == SUCCESS
  {
    assert (rs + [r])[..|rs|] == rs;
  }

  datatype Doc = Stored(cas: nat) | Failed(err: nat)

  /** What the operation leaves in the return value. */
  datatype Returned = Nothing | Single(doc: Doc) | Mapped(docs: map<string, Doc>)

  function DocOf(r: Response): Doc {
    if r.err == SUCCESS then Stored(r.cas) else Failed(r.err)
  }

  /** bop_get_return_doc, then the document: a mapped result gets an entry, a single one is replaced. */
  function Put(was: Returned, r: Response, isMapped: bool): Returned {
    if !isMapped then Single(DocOf(r))
    else if was.Mapped? then Mapped(was.docs[r.key := DocOf(r)])
    else Mapped(map[r.key := DocOf(r)])
  }

  function PutAll(rs: seq<Response>, isMapped: bool): Returned {
    if rs == [] then Nothing else Put(PutAll(rs[..|rs| - 1], isMapped), rs[|rs| - 1], isMapped)
  }

  function LastFor(rs: seq<Response>, key: string): (r: Option<nat>)
    ensures r.Some? ==> r.value < |rs| && rs[r.value].key == key
    ensures forall i :: (if r.Some? then r.value else -1) < i < |rs| ==> rs[i].key != key
  {
    if rs == [] then None
    else if rs[|rs| - 1].key == key then Some(|rs| - 1)
    else
      var front := rs[..|rs| - 1];
      assert forall i :: 0 <= i < |front| ==> front[i] == rs[i];
      LastFor(front, key)
  }

  /** A multi-key store maps every key that got a response, and no other, to its last response. */
  lemma {:induction false} MappedIsLast(rs: seq<Response>, key: string)
    ensures rs != [] ==> PutAll(rs, true).Mapped?
    ensures PutAll(rs, true).Mapped? && key in PutAll(rs, true).docs <==> LastFor(rs, key).Some?
    ensures LastFor(rs, key).Some? ==> PutAll(rs, true).docs[key] == DocOf(rs[LastFor(rs, key).value])
  {
    if rs != [] {
      MappedIsLast(rs[..|rs| - 1], key);
    }
  }

  /** A single-key store returns the CAS of its last response if that succeeded, else its error, and nothing if
      no response came. */
  lemma SingleIsLast(rs: seq<Response>)
    ensures rs == [] ==> PutAll(rs, false) == Nothing
    ensures rs != [] ==>
              var last := rs[|rs| - 1];
              PutAll(rs, false) == Single(if last.err == 0 then Stored(last.cas) else Failed(last.err))
  {
  }

  /** In a multi-key result a success stands as its CAS, a failure as its error code. */
  lemma MappedCarries(rs: seq<Response>, i: nat)
    requires i < |rs| && forall j :: i < j < |rs| ==> rs[j].key != rs[i].key
    ensures PutAll(rs, true).Mapped? && rs[i].key in PutAll(rs, true).docs
    ensures rs[i].err == 0 ==> PutAll(rs, true).docs[rs[i].key] == Stored(rs[i].cas)
    ensures rs[i].err != 0 ==> PutAll(rs, true).docs[rs[i].key] == Failed(rs[i].err)
  {
    hide PutAll, LastFor;
    MappedIsLast(rs, rs[i].key);
    var last := LastFor(rs, rs[i].key);
    assert last == Some(i);
  }

  // ---- The list on the heap -----------------------------------------------------------------------------

  class Node {
    const res: Response
    var next: Node?

    constructor (res: Response)
      ensures this.res == res
    {
      this.res := res;
    }
  }

  class Cookie {
    var head: Node?
    var tail: Node?
    var firstError: nat
    ghost var nodes: seq<Node>

    ghost predicate Valid()
      reads this, nodes
    {
      && (forall i, j :: 0 <= i < j < |nodes| ==> nodes[i] != nodes[j])
      && head == (if nodes == [] then null else nodes[0])
      && (nodes != [] ==> tail == nodes[|nodes| - 1])
      && (forall i :: 0 <= i < |nodes| - 1 ==> nodes[i].next == nodes[i + 1])
      && (nodes != [] ==> nodes[|nodes| - 1].next == null)
      && firstError == FirstError(Pushed())
    }

    ghost function Pushed(): (r: seq<Response>)
      reads this
      ensures |r| == |nodes|
    {
      seq(|nodes|, i requires 0 <= i < |nodes| reads this => nodes[i].res)
    }

    constructor ()
      ensures Valid() && nodes == [] && Pushed() == []
    {
      head, tail, firstError, nodes := null, null, SUCCESS, [];
    }

    /** opcookie_push. */
    method Push(res: Node)
      requires Valid() && res !in nodes
      modifies this, nodes, res
      ensures Valid() && nodes == old(nodes) + [res]
      ensures Pushed() == old(Pushed()) + [res.res]
    {
      hide FirstError;
      FirstErrorAppend(Pushed(), res.res);
      ghost var before := Pushed();
      if head == null {
        head := res;
        tail := res;
      } else {
        tail.next := res;
        tail := res;
      }
      res.next := null;
      if res.res.err != SUCCESS && firstError == SUCCESS {
        firstError := res.res.err;
      }
      nodes := nodes + [res];
      assert Pushed() == before + [res.res];
    }

    /** opcookie_next_res: from null to the first, from each to the one pushed after it. */
    method NextRes(cur: Node?, ghost k: nat) returns (res: Node?)
      requires Valid() && k <= |nodes| && cur == (if k == 0 then null else nodes[k - 1])
      ensures res == (if k < |nodes| then nodes[k] else null)
    {
      if cur == null {
        res := head;
      } else {
        res := cur.next;
      }
    }

    /** proc_store_results: a single-key store fails with the first error; otherwise every response is
        entered in the order of arrival. */
    method StoreResults(isMapped: bool) returns (err: nat, result: Returned)
      requires Valid()
      ensures err == (if isMapped then SUCCESS else FirstError(Pushed()))
      ensures result == (if err == SUCCESS then PutAll(Pushed(), isMapped) else Nothing)
    {
      err, result := SUCCESS, Nothing;
      if !isMapped {
        err := firstError;
      }
      if err == SUCCESS {
        ghost var k := 0;
        var res := NextRes(null, 0);
        while res != null
          invariant k <= |nodes| && res == (if k < |nodes| then nodes[k] else null)
          invariant result == PutAll(Pushed()[..k], isMapped)
          decreases |nodes| - k
        {
          assert Pushed()[..k + 1][..k] == Pushed()[..k] && Pushed()[k] == res.res;
          result := Put(result, res.res, isMapped);
          res := NextRes(res, k + 1);
          k := k + 1;
        }
        assert Pushed()[..k] == Pushed();
      }
    }
  }
}
