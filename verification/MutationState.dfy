/** The set of mutation tokens a N1QL query can be asked to be consistent with. */
module MutationState {
  import opened Wrappers

  const U64: nat := 0x1_0000_0000_0000_0000

  type u64 = x: int | 0 <= x < U64
  type u16 = x: int | 0 <= x < 0x1_0000

  datatype Token = Token(bucket: string, vb: u16, id: u64, seqno: u64)

  // ---- Adding, on sequences ---------------------------------------------------------------------------

  /** The test that makes an addition redundant; the vbucket is not compared. */
  predicate Same(a: Token, b: Token) {
    a.bucket == b.bucket && a.seqno == b.seqno && a.id == b.id
  }

  predicate Older(a: Token, b: Token) {
    a.bucket == b.bucket && a.seqno < b.seqno
  }

  predicate HasSame(tokens: seq<Token>, t: Token) {
    exists i :: 0 <= i < |tokens| && Same(tokens[i], t)
  }

  /** The last token of t's bucket with a smaller sequence number: the one t overwrites. */
  function LastOlder(tokens: seq<Token>, t: Token): (r: Option<nat>)
    ensures r.Some? ==> r.value < |tokens| && Older(tokens[r.value], t)
    ensures r.Some? ==> forall i :: r.value < i < |tokens| ==> !Older(tokens[i], t)
    ensures r.None? ==> forall i :: 0 <= i < |tokens| ==> !Older(tokens[i], t)
  {
    if tokens == [] then None
    else if Older(tokens[|tokens| - 1], t) then Some(|tokens| - 1)
    else
      var front := tokens[..|tokens| - 1];
      assert forall i :: 0 <= i < |front| ==> front[i] == tokens[i];
      LastOlder(front, t)
  }

  function Add(tokens: seq<Token>, t: Token): seq<Token> {
    if HasSame(tokens, t) then tokens
    else
      match LastOlder(tokens, t)
      case Some(i) => tokens[i := t]
      case None => tokens + [t]
  }

  function AddAll(tokens: seq<Token>, ts: seq<Token>): seq<Token>
    decreases |ts|
  {
    if ts == [] then tokens else AddAll(Add(tokens, ts[0]), ts[1..])
  }

  // ---- What every run of additions keeps ----------------------------------------------------------------

  predicate NoRepeats(tokens: seq<Token>) {
    forall i, j :: 0 <= i < j < |tokens| ==> !Same(tokens[i], tokens[j])
  }

  predicate Supersedes(tokens: seq<Token>, a: Token) {
    exists i :: 0 <= i < |tokens| && tokens[i].bucket == a.bucket && tokens[i].seqno >= a.seqno
  }

  /** The tokens kept are tokens added, and no token added is newer than all kept ones of its bucket. */
  predicate Covers(tokens: seq<Token>, added: set<Token>) {
    && (forall i :: 0 <= i < |tokens| ==> tokens[i] in added)
    && (forall a :: a in added ==> Supersedes(tokens, a))
  }

  lemma AddKeepsNoRepeats(tokens: seq<Token>, t: Token)
    requires NoRepeats(tokens)
    ensures NoRepeats(Add(tokens, t))
  {
  }

  /** What superseded a token before an addition, or its replacement, supersedes it afterwards. */
  lemma AddSupersedes(tokens: seq<Token>, t: Token, a: Token)
    requires a == t || Supersedes(tokens, a)
    ensures Supersedes(Add(tokens, t), a)
  {
    var tokens' := Add(tokens, t);
    var k := LastOlder(tokens, t);
    if HasSame(tokens, t) {
      if a == t {
        var i :| 0 <= i < |tokens| && Same(tokens[i], t);
        assert tokens'[i].bucket == a.bucket && tokens'[i].seqno >= a.seqno;
      }
    } else if a == t {
      var i := if k.Some? then k.value else |tokens|;
      assert tokens'[i] == t;
    } else {
      var i :| 0 <= i < |tokens| && tokens[i].bucket == a.bucket && tokens[i].seqno >= a.seqno;
      assert tokens'[i].bucket == a.bucket && tokens'[i].seqno >= a.seqno;
    }
  }

  lemma AddKeepsCovers(tokens: seq<Token>, added: set<Token>, t: Token)
    requires Covers(tokens, added)
    ensures Covers(Add(tokens, t), added + {t})
  {
    hide LastOlder, Supersedes;
    forall a | a in added + {t} ensures Supersedes(Add(tokens, t), a) {
      AddSupersedes(tokens, t, a);
    }
  }

  function SetOf(ts: seq<Token>): set<Token> {
    set t | t in ts
  }

  lemma SetOfCons(ts: seq<Token>, added: set<Token>)
    ensures ts == [] ==> added + SetOf(ts) == added
    ensures ts != [] ==> added + {ts[0]} + SetOf(ts[1..]) == added + SetOf(ts)
  {
    if ts != [] {
      assert ts == [ts[0]] + ts[1..];
    }
  }

  /** After any additions, in any order: the chain holds no token twice, only tokens that were added, and
      for each bucket the largest sequence number ever added to it. */
  lemma {:induction false} RunCovers(tokens: seq<Token>, added: set<Token>, ts: seq<Token>)
    requires NoRepeats(tokens) && Covers(tokens, added)
    ensures NoRepeats(AddAll(tokens, ts)) && Covers(AddAll(tokens, ts), added + SetOf(ts))
    decreases |ts|
  {
    hide Covers, NoRepeats, SetOf, Add;
    SetOfCons(ts, added);
    if ts != [] {
      AddKeepsNoRepeats(tokens, ts[0]);
      AddKeepsCovers(tokens, added, ts[0]);
      RunCovers(Add(tokens, ts[0]), added + {ts[0]}, ts[1..]);
    }
  }

  /** The largest sequence number kept for a bucket is the largest ever added to it. */
  lemma LargestIsKept(ts: seq<Token>, a: Token)
    requires a in ts && forall b :: b in ts && b.bucket == a.bucket ==> b.seqno <= a.seqno
    ensures var tokens := AddAll([], ts);
      && (exists i :: 0 <= i < |tokens| && tokens[i].bucket == a.bucket && tokens[i].seqno == a.seqno)
      && (forall i :: 0 <= i < |tokens| && tokens[i].bucket == a.bucket ==> tokens[i].seqno <= a.seqno)
      && NoRepeats(tokens)
  {
    hide AddAll, NoRepeats, Covers, Supersedes;
    EmptyChain();
    RunCovers([], {}, ts);
    Covered(AddAll([], ts), ts);
    NewestIn(AddAll([], ts), a);
  }

  lemma EmptyChain()
    ensures NoRepeats([]) && Covers([], {})
  {
  }

  lemma Covered(tokens: seq<Token>, ts: seq<Token>)
    requires Covers(tokens, {} + SetOf(ts))
    ensures forall i :: 0 <= i < |tokens| ==> tokens[i] in ts
    ensures forall a :: a in ts ==> Supersedes(tokens, a)
  {
    hide Supersedes;
    assert forall a :: a in ts <==> a in {} + SetOf(ts);
  }

  lemma NewestIn(tokens: seq<Token>, a: Token)
    requires Supersedes(tokens, a)
    ensures exists i :: 0 <= i < |tokens| && tokens[i].bucket == a.bucket && tokens[i].seqno >= a.seqno
  {
  }

  /** Adding a token twice is adding it once. */
  lemma AddTwice(tokens: seq<Token>, t: Token)
    ensures Add(Add(tokens, t), t) == Add(tokens, t)
  {
    var tokens' := Add(tokens, t);
    if !HasSame(tokens, t) {
      var k := LastOlder(tokens, t);
      var i := if k.Some? then k.value else |tokens|;
      assert Same(tokens'[i], t);
    }
  }

  /** An addition keeps every token there was exactly when it is redundant or finds nothing older in its
      bucket, whatever the vbuckets: tokens of different vbuckets displace each other. */
  lemma AddKeepsAll(tokens: seq<Token>, t: Token)
    requires NoRepeats(tokens)
    ensures (forall x :: x in tokens ==> x in Add(tokens, t))
       <==> HasSame(tokens, t) || forall x :: x in tokens && x.bucket == t.bucket ==> x.seqno >= t.seqno
  {
    var tokens' := Add(tokens, t);
    var k := LastOlder(tokens, t);
    if !HasSame(tokens, t) {
      if k.Some? {
        var x := tokens[k.value];
        assert x in tokens && Older(x, t);
        forall j | 0 <= j < |tokens'| ensures tokens'[j] != x {
          if j != k.value {
            assert !Same(tokens[j], x);
          }
        }
      } else {
        assert forall x :: x in tokens ==> !Older(x, t);
      }
    }
  }

  /** The promise VbucketLost breaks: an addition keeps the tokens of all other vbuckets exactly when it is
      redundant, or finds nothing older in its bucket, or what it overwrites is of its own vbucket. */
  lemma AddKeepsOthers(tokens: seq<Token>, t: Token)
    requires NoRepeats(tokens)
    ensures (forall x :: x in tokens && !(x.bucket == t.bucket && x.vb == t.vb) ==> x in Add(tokens, t))
       <==> HasSame(tokens, t) || LastOlder(tokens, t).None? || tokens[LastOlder(tokens, t).value].vb == t.vb
  {
    var tokens' := Add(tokens, t);
    var k := LastOlder(tokens, t);
    if !HasSame(tokens, t) && k.Some? {
      var x := tokens[k.value];
      forall j | 0 <= j < |tokens'| ensures tokens'[j] != x {
        if j != k.value {
          assert !Same(tokens[j], x);
        }
      }
      forall y | y in tokens && y != x ensures y in tokens' {
        var j :| 0 <= j < |tokens| && tokens[j] == y;
        assert tokens'[j] == y;
      }
    } else if !HasSame(tokens, t) {
      assert forall y :: y in tokens ==> y in tokens + [t];
    }
  }

  /** Two vbuckets of one bucket: the first token is lost. */
  lemma VbucketLost()
    ensures AddAll([], [Token("b", 1, 1, 5), Token("b", 2, 2, 9)]) == [Token("b", 2, 2, 9)]
  {
    var t, u := Token("b", 1, 1, 5), Token("b", 2, 2, 9);
    assert [t, u][1..] == [u] && [u][1..] == [];
    assert Add([], t) == [t];
    assert !Same(t, u) && Older(t, u);
    assert LastOlder([t], u) == Some(0);
    assert Add([t], u) == [u];
    assert AddAll([u], []) == [u];
  }

  /** Exactly what an addition does: nothing if a token of equal bucket, sequence number and id is there; else
      the last token of the bucket with a smaller sequence number becomes the new one; else it goes behind the
      others. */
  lemma AddRule(tokens: seq<Token>, t: Token)
    ensures (exists x :: x in tokens && x.bucket == t.bucket && x.seqno == t.seqno && x.id == t.id) ==>
              Add(tokens, t) == tokens
    ensures !(exists x :: x in tokens && x.bucket == t.bucket && x.seqno == t.seqno && x.id == t.id) ==>
              && t in Add(tokens, t)
              && (forall i :: 0 <= i < |tokens| && tokens[i].bucket == t.bucket && tokens[i].seqno < t.seqno
                              && (forall j :: i < j < |tokens| && tokens[j].bucket == t.bucket ==> tokens[j].seqno >= t.seqno)
                    ==> Add(tokens, t) == tokens[i := t])
              && ((forall x :: x in tokens && x.bucket == t.bucket ==> x.seqno >= t.seqno) ==>
                    Add(tokens, t) == tokens + [t])
  {
    hide LastOlder;
    if exists x :: x in tokens && x.bucket == t.bucket && x.seqno == t.seqno && x.id == t.id {
      var x :| x in tokens && x.bucket == t.bucket && x.seqno == t.seqno && x.id == t.id;
      var i :| 0 <= i < |tokens| && tokens[i] == x;
      assert Same(tokens[i], t);
    } else {
      assert forall i :: 0 <= i < |tokens| ==> tokens[i] in tokens;
      assert !HasSame(tokens, t);
      var k := LastOlder(tokens, t);
      assert k.None? ==> Add(tokens, t)[|tokens|] == t;
      assert k.Some? ==> Add(tokens, t)[k.value] == t;
    }
  }

  /** The signed integer PHP sees agrees with the sequence number modulo 2^64. */
  lemma AsLongRule(n: u64)
    ensures -0x8000_0000_0000_0000 <= AsLong(n) < 0x8000_0000_0000_0000
    ensures AsLong(n) == n || AsLong(n) == n - 0x1_0000_0000_0000_0000
  {
  }

  // ---- Export for N1QL ------------------------------------------------------------------------------------

  /** A sequence number goes to PHP as a signed 64-bit integer. */
  function AsLong(n: u64): int {
    if n < U64 / 2 then n else n - U64
  }

  type Vectors = map<string, map<u16, (int, u64)>>

  function ExportOne(v: Vectors, t: Token): Vectors {
    var group: map<u16, (int, u64)> := if t.bucket in v then v[t.bucket] else map[];
    v[t.bucket := group[t.vb := (AsLong(t.seqno), t.id)]]
  }

  /** Buckets, then vbuckets; a later token of the same vbucket replaces an earlier one. */
  function Export(tokens: seq<Token>): Vectors {
    if tokens == [] then map[] else ExportOne(Export(tokens[..|tokens| - 1]), tokens[|tokens| - 1])
  }

  function LastOf(tokens: seq<Token>, bucket: string, vb: u16): (r: Option<nat>)
    ensures r.Some? ==> r.value < |tokens| && tokens[r.value].bucket == bucket && tokens[r.value].vb == vb
    ensures forall i :: (if r.Some? then r.value else -1) < i < |tokens| ==>
              !(tokens[i].bucket == bucket && tokens[i].vb == vb)
  {
    if tokens == [] then None
    else
      var t := tokens[|tokens| - 1];
      if t.bucket == bucket && t.vb == vb then Some(|tokens| - 1)
      else
        var front := tokens[..|tokens| - 1];
        assert forall i :: 0 <= i < |front| ==> front[i] == tokens[i];
        LastOf(front, bucket, vb)
  }

  /** What the query is told about a vbucket is its last token in the chain; nothing is told of others. */
  lemma {:induction false} ExportIsLast(tokens: seq<Token>, bucket: string, vb: u16)
    ensures bucket in Export(tokens) && vb in Export(tokens)[bucket] <==> LastOf(tokens, bucket, vb).Some?
    ensures LastOf(tokens, bucket, vb).Some? ==>
              var t := tokens[LastOf(tokens, bucket, vb).value];
              Export(tokens)[bucket][vb] == (AsLong(t.seqno), t.id)
  {
    if tokens != [] {
      ExportIsLast(tokens[..|tokens| - 1], bucket, vb);
    }
  }

  /** The last is not always the newest: an older token added after a newer one of its vbucket wins. */
  lemma StaleExport()
    ensures var v := Export(AddAll([], [Token("b", 1, 1, 9), Token("b", 1, 1, 5)]));
      "b" in v && 1 in v["b"] && v["b"][1] == (5, 1)
  {
    var t, u := Token("b", 1, 1, 9), Token("b", 1, 1, 5);
    assert [t, u][1..] == [u] && [u][1..] == [];
    assert Add([], t) == [t];
    assert !Same(t, u) && !Older(t, u);
    assert LastOlder([t], u) == None;
    assert Add([t], u) == [t, u];
    assert AddAll([t, u], []) == [t, u];
    assert [t, u][..1] == [t] && [t][..0] == [];
    assert Export([t]) == ExportOne(map[], t);
    assert Export([t, u]) == ExportOne(Export([t]), u);
  }
}
