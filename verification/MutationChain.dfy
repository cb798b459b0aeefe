/** The mutation state on the heap: a singly linked chain with head, tail and count, searched, overwritten
    and appended in place. */
module MutationChain {
  import opened Wrappers
  import opened MutationState

  class Node {
    var token: Token
    var next: Node?

    constructor (token: Token)
      ensures this.token == token && next == null
    {
      this.token, next := token, null;
    }
  }

  class State {
    var head: Node?
    var tail: Node?
    var ntokens: nat
    ghost var nodes: seq<Node>

    /** One acyclic chain from head to tail. */
    ghost predicate Valid()
      reads this, nodes
    {
      && ntokens == |nodes|
      && (forall i, j :: 0 <= i < j < |nodes| ==> nodes[i] != nodes[j])
      && head == (if nodes == [] then null else nodes[0])
      && tail == (if nodes == [] then null else nodes[|nodes| - 1])
      && (forall i :: 0 <= i < |nodes| - 1 ==> nodes[i].next == nodes[i + 1])
      && (nodes != [] ==> nodes[|nodes| - 1].next == null)
    }

    ghost function Tokens(): (r: seq<Token>)
      reads this, nodes
      ensures |r| == |nodes|
    {
      seq(|nodes|, i requires 0 <= i < |nodes| reads this, nodes => nodes[i].token)
    }

    constructor ()
      ensures Valid() && Tokens() == [] && nodes == []
    {
      head, tail, ntokens, nodes := null, null, 0, [];
    }

    /** The search of pcbc_add_token: whether the token is there already, and the node it overwrites. */
    method Search(token: Token) returns (present: bool, target: Node?, ghost at: nat)
      requires Valid()
      ensures present == HasSame(Tokens(), token)
      ensures !present ==> match LastOlder(Tokens(), token)
                           case None => target == null
                           case Some(i) => at == i && i < |nodes| && target == nodes[i]
    {
      ghost var tokens := Tokens();
      ghost var i := 0;
      present, target, at := false, null, 0;
      var t := head;
      while t != null
        invariant i <= |nodes| && t == (if i < |nodes| then nodes[i] else null)
        invariant forall j :: 0 <= j < i ==> !Same(tokens[j], token)
        invariant target == null ==> forall j :: 0 <= j < i ==> !Older(tokens[j], token)
        invariant target != null ==> at < i && target == nodes[at] && Older(tokens[at], token)
                                     && forall j :: at < j < i ==> !Older(tokens[j], token)
        decreases |nodes| - i
      {
        assert tokens[i] == t.token;
        // the source compares t's vbucket with itself, so only the bucket decides
        if t.token.vb == t.token.vb && t.token.bucket == token.bucket {
          if t.token.seqno < token.seqno {
            target, at := t, i;
          }
          if t.token.seqno == token.seqno && t.token.id == token.id {
            return true, target, at;
          }
        }
        t, i := t.next, i + 1;
      }
      LastOlderIs(tokens, token, if target == null then None else Some(at));
    }

    /** pcbc_add_token. */
    method AddToken(token: Token)
      requires Valid()
      modifies this, nodes
      ensures Valid()
      ensures |old(nodes)| <= |nodes| && nodes[..|old(nodes)|] == old(nodes)
      ensures forall i :: |old(nodes)| <= i < |nodes| ==> fresh(nodes[i])
      ensures Tokens() == Add(old(Tokens()), token)
    {
      hide HasSame, LastOlder;
      ghost var before := Tokens();
      var present, target;
      ghost var at;
      present, target, at := Search(token);
      if present {
        return;
      }
      if target == null {
        target := new Node(token);
        if tail != null {
          tail.next := target;
        }
        tail := target;
        if head == null {
          head := tail;
        }
        ntokens := ntokens + 1;
        nodes := nodes + [target];
        assert Tokens() == before + [token];
      } else {
        target.token := token;
        assert Tokens() == before[at := token];
      }
    }

    /** pcbc_mutation_state_export_for_n1ql. */
    method ExportForN1ql() returns (v: Vectors)
      requires Valid()
      ensures v == Export(Tokens())
    {
      ghost var i := 0;
      v := map[];
      var t := head;
      while t != null
        invariant i <= |nodes| && t == (if i < |nodes| then nodes[i] else null)
        invariant v == Export(Tokens()[..i])
        decreases |nodes| - i
      {
        assert Tokens()[..i + 1][..i] == Tokens()[..i] && Tokens()[i] == t.token;
        v := ExportOne(v, t.token);
        t, i := t.next, i + 1;
      }
      assert Tokens()[..i] == Tokens();
    }
  }

  lemma LastOlderIs(tokens: seq<Token>, t: Token, r: Option<nat>)
    requires r.Some? ==> r.value < |tokens| && Older(tokens[r.value], t)
    requires forall i :: (if r.Some? then r.value else -1) < i < |tokens| ==> !Older(tokens[i], t)
    ensures LastOlder(tokens, t) == r
  {
  }
}
