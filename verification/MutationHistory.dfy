/** When a query is told the newest mutation of a vbucket: what the export says about one vbucket of one
    bucket, against everything ever added for it. */
module MutationHistory {
  import opened Wrappers
  import opened MutationState

  predicate Of(t: Token, bucket: string, vb: u16) {
    t.bucket == bucket && t.vb == vb
  }

  /** The newer of what there was and the token, if it is one of the vbucket's. */
  function Newer(n: Option<u64>, t: Token, bucket: string, vb: u16): Option<u64> {
    if !Of(t, bucket, vb) || (n.Some? && n.value >= t.seqno) then n else Some(t.seqno)
  }

  /** The largest sequence number among the vbucket's tokens. */
  function Newest(ts: seq<Token>, bucket: string, vb: u16): Option<u64> {
    if ts == [] then None else Newer(Newest(ts[..|ts| - 1], bucket, vb), ts[|ts| - 1], bucket, vb)
  }

  lemma {:induction false} NewestIsLargest(ts: seq<Token>, bucket: string, vb: u16)
    ensures Newest(ts, bucket, vb).None? <==> forall t :: t in ts ==> !Of(t, bucket, vb)
    ensures Newest(ts, bucket, vb).Some? ==>
              && (exists t :: t in ts && Of(t, bucket, vb) && t.seqno == Newest(ts, bucket, vb).value)
              && (forall t :: t in ts && Of(t, bucket, vb) ==> t.seqno <= Newest(ts, bucket, vb).value)
  {
    if ts != [] {
      var front, last := ts[..|ts| - 1], ts[|ts| - 1];
      NewestIsLargest(front, bucket, vb);
      assert forall t :: t in ts <==> t in front || t == last by { assert ts == front + [last]; }
    }
  }

  /** The sequence number the chain holds last for the vbucket. */
  function LastSeqno(tokens: seq<Token>, bucket: string, vb: u16): Option<u64> {
    var last := LastOf(tokens, bucket, vb);
    if last.None? then None else Some(tokens[last.value].seqno)
  }

  /** The query is told the largest sequence number ever added for the vbucket, and of no vbucket for which
      nothing was added. */
  predicate ToldNewest(ts: seq<Token>, bucket: string, vb: u16) {
    var v, newest := Export(AddAll([], ts)), Newest(ts, bucket, vb);
    if bucket in v && vb in v[bucket] then newest.Some? && v[bucket][vb].0 == AsLong(newest.value) else newest.None?
  }

  lemma ToldNewestIs(ts: seq<Token>, bucket: string, vb: u16)
    ensures ToldNewest(ts, bucket, vb) <==> LastSeqno(AddAll([], ts), bucket, vb) == Newest(ts, bucket, vb)
  {
    hide AddAll, Export, LastOf, Newest, AsLong;
    ExportIsLast(AddAll([], ts), bucket, vb);
    var last, newest := LastSeqno(AddAll([], ts), bucket, vb), Newest(ts, bucket, vb);
    if last.Some? && newest.Some? {
      AsLongInjective(last.value, newest.value);
    }
  }

  lemma AsLongInjective(a: u64, b: u64)
    ensures AsLong(a) == AsLong(b) <==> a == b
  {
  }

  // ---- One addition ----------------------------------------------------------------------------------------

  /** Whether adding t to the chain tells the truth about a vbucket.  Its own: nothing is dropped as a
      duplicate that is newer than the vbucket's last token, and no older token comes to lie behind a newer
      one.  Another: its last token is not overwritten, unless the one before it is as new. */
  predicate Harmless(tokens: seq<Token>, t: Token, bucket: string, vb: u16) {
    var last, older := LastOf(tokens, bucket, vb), LastOlder(tokens, t);
    if Of(t, bucket, vb) then
      if HasSame(tokens, t) then last.Some? && tokens[last.value].seqno >= t.seqno
      else last.None? || tokens[last.value].seqno <= t.seqno || (older.Some? && older.value < last.value)
    else
      || HasSame(tokens, t) || older.None? || last != older
      || LastSeqno(tokens[..older.value], bucket, vb) == Some(tokens[older.value].seqno)
  }

  lemma LastOfIs(tokens: seq<Token>, bucket: string, vb: u16, r: Option<nat>)
    requires r.Some? ==> r.value < |tokens| && Of(tokens[r.value], bucket, vb)
    requires forall i :: (if r.Some? then r.value else -1) < i < |tokens| ==> !Of(tokens[i], bucket, vb)
    ensures LastOf(tokens, bucket, vb) == r
  {
    var l := LastOf(tokens, bucket, vb);
    assert forall i :: (if l.Some? then l.value else -1) < i < |tokens| ==> !Of(tokens[i], bucket, vb);
  }

  /** Where a vbucket's last token is after token i has been overwritten with t. */
  lemma LastOfOverwritten(tokens: seq<Token>, i: nat, t: Token, bucket: string, vb: u16)
    requires i < |tokens|
    ensures LastOf(tokens[i := t], bucket, vb) == (
              var last := LastOf(tokens, bucket, vb);
              if Of(t, bucket, vb) then (if last.Some? && last.value > i then last else Some(i))
              else if last == Some(i) then LastOf(tokens[..i], bucket, vb)
              else last)
  {
    hide LastOf;
    var last, before := LastOf(tokens, bucket, vb), LastOf(tokens[..i], bucket, vb);
    var tokens' := tokens[i := t];
    assert forall j :: 0 <= j < i ==> tokens[..i][j] == tokens'[j];
    if Of(t, bucket, vb) {
      LastOfIs(tokens', bucket, vb, if last.Some? && last.value > i then last else Some(i));
    } else {
      LastOfIs(tokens', bucket, vb, if last == Some(i) then before else last);
    }
  }

  lemma LastOfAppended(tokens: seq<Token>, t: Token, bucket: string, vb: u16)
    ensures LastOf(tokens + [t], bucket, vb) == (
              if Of(t, bucket, vb) then Some(|tokens|) else LastOf(tokens, bucket, vb))
  {
    assert (tokens + [t])[..|tokens|] == tokens;
  }

  /** An addition moves a vbucket's last sequence number to the newer of the two exactly when it is
      harmless to it. */
  lemma AddTells(tokens: seq<Token>, t: Token, bucket: string, vb: u16)
    ensures LastSeqno(Add(tokens, t), bucket, vb) == Newer(LastSeqno(tokens, bucket, vb), t, bucket, vb)
       <==> Harmless(tokens, t, bucket, vb)
  {
    hide LastOf, LastOlder, HasSame;
    var last, older := LastOf(tokens, bucket, vb), LastOlder(tokens, t);
    if !HasSame(tokens, t) {
      if older.Some? {
        var i := older.value;
        LastOfOverwritten(tokens, i, t, bucket, vb);
        if !Of(t, bucket, vb) && last == older {
          var before := LastOf(tokens[..i], bucket, vb);
          assert before.Some? ==> tokens[..i][before.value] == tokens[i := t][before.value];
        }
      } else {
        LastOfAppended(tokens, t, bucket, vb);
      }
    }
  }

  // ---- Whole histories ---------------------------------------------------------------------------------------

  lemma {:induction false} AddAllAppend(tokens: seq<Token>, ts: seq<Token>, t: Token)
    ensures AddAll(tokens, ts + [t]) == Add(AddAll(tokens, ts), t)
    decreases |ts|
  {
    if ts == [] {
      assert (ts + [t])[1..] == [];
      assert AddAll(Add(tokens, t), []) == Add(tokens, t);
    } else {
      assert (ts + [t])[1..] == ts[1..] + [t];
      AddAllAppend(Add(tokens, ts[0]), ts[1..], t);
    }
  }

  lemma NextToldNewest(ts: seq<Token>, t: Token, bucket: string, vb: u16)
    requires ToldNewest(ts, bucket, vb)
    ensures ToldNewest(ts + [t], bucket, vb) <==> Harmless(AddAll([], ts), t, bucket, vb)
  {
    hide AddAll, Add, LastSeqno, Harmless, ToldNewest;
    assert (ts + [t])[..|ts|] == ts;
    ToldNewestIs(ts, bucket, vb);
    ToldNewestIs(ts + [t], bucket, vb);
    AddAllAppend([], ts, t);
    AddTells(AddAll([], ts), t, bucket, vb);
  }

  /** At every moment of the history the query was told the newest. */
  predicate AlwaysTold(ts: seq<Token>, bucket: string, vb: u16) {
    forall k :: 0 <= k <= |ts| ==> ToldNewest(ts[..k], bucket, vb)
  }

  /** Every addition was harmless to the chain it found. */
  predicate AllHarmless(ts: seq<Token>, bucket: string, vb: u16) {
    forall k :: 0 <= k < |ts| ==> Harmless(AddAll([], ts[..k]), ts[k], bucket, vb)
  }

  lemma AlwaysToldStep(ts: seq<Token>, t: Token, bucket: string, vb: u16)
    ensures AlwaysTold(ts + [t], bucket, vb) <==> AlwaysTold(ts, bucket, vb) && ToldNewest(ts + [t], bucket, vb)
  {
    hide ToldNewest;
    var all := ts + [t];
    assert forall k :: 0 <= k <= |ts| ==> all[..k] == ts[..k];
    assert all[..|all|] == all;
  }

  lemma AllHarmlessStep(ts: seq<Token>, t: Token, bucket: string, vb: u16)
    ensures AllHarmless(ts + [t], bucket, vb)
       <==> AllHarmless(ts, bucket, vb) && Harmless(AddAll([], ts), t, bucket, vb)
  {
    hide Harmless, AddAll;
    var all := ts + [t];
    assert forall k :: 0 <= k < |ts| ==> all[..k] == ts[..k] && all[k] == ts[k];
    assert all[..|ts|] == ts && all[|ts|] == t;
  }

  /** Over every history of additions to an empty state: at every moment the query is told the newest
      mutation of the vbucket, exactly when every addition was harmless to it where it was made. */
  lemma {:induction false} AlwaysToldNewest(ts: seq<Token>, bucket: string, vb: u16)
    ensures AlwaysTold(ts, bucket, vb) <==> AllHarmless(ts, bucket, vb)
    decreases |ts|
  {
    if ts == [] {
      ToldNothing(bucket, vb);
    } else {
      var front, t := ts[..|ts| - 1], ts[|ts| - 1];
      assert ts == front + [t];
      hide AlwaysTold, AllHarmless, ToldNewest, Harmless, AddAll;
      AlwaysToldNewest(front, bucket, vb);
      AlwaysToldStep(front, t, bucket, vb);
      AllHarmlessStep(front, t, bucket, vb);
      if AlwaysTold(front, bucket, vb) {
        assert ToldNewest(front, bucket, vb) by { AlwaysToldLast(front, bucket, vb); }
        NextToldNewest(front, t, bucket, vb);
      }
    }
  }

  lemma AlwaysToldLast(ts: seq<Token>, bucket: string, vb: u16)
    requires AlwaysTold(ts, bucket, vb)
    ensures ToldNewest(ts, bucket, vb)
  {
    assert ts[..|ts|] == ts;
  }

  lemma ToldNothing(bucket: string, vb: u16)
    ensures ToldNewest([], bucket, vb)
  {
  }

  /** With one vbucket in the bucket and its newest token last, an addition is harmless exactly when it is
      redundant, or overwrites an older token, or is as new as all there are. */
  lemma OneVbucket(tokens: seq<Token>, t: Token)
    requires forall x :: x in tokens && x.bucket == t.bucket ==> x.vb == t.vb
    requires forall x :: x in tokens && x.bucket == t.bucket ==>
               x.seqno <= tokens[LastOf(tokens, t.bucket, t.vb).value].seqno
    ensures Harmless(tokens, t, t.bucket, t.vb)
       <==> || HasSame(tokens, t)
            || LastOlder(tokens, t).Some?
            || forall x :: x in tokens && x.bucket == t.bucket ==> x.seqno == t.seqno
  {
    hide LastOf, LastOlder;
    var last, older := LastOf(tokens, t.bucket, t.vb), LastOlder(tokens, t);
    assert forall i :: 0 <= i < |tokens| ==> tokens[i] in tokens;
    if last.Some? {
      assert tokens[last.value] in tokens;
    }
  }
}
