/** The parser's state in place: `Begin` scans the specification and binds the values, `Next` advances
    through the ids and rewrites the option variables. */
module ParamIterator {
  import opened Wrappers
  import opened ParamParser

  predicate Sorted(args: seq<ArgSpec>, low: nat) {
    && (forall i :: 0 <= i < |args| ==> low <= args[i].kind <= 2)
    && (forall i, j :: 0 <= i < j < |args| ==> args[i].kind <= args[j].kind)
  }

  lemma {:induction false} ParseIsSorted(spec: string, name: string, kind: nat)
    requires kind <= 2
    ensures Sorted(ParseFrom(spec, name, kind), kind)
    decreases |spec|
  {
    if spec != "" {
      if spec[0] == '|' {
        ParseIsSorted(spec[1..], "", NextKind(kind));
      } else if spec[0] == ',' {
        ParseIsSorted(spec[1..], "", kind);
      } else {
        ParseIsSorted(spec[1..], name + [spec[0]], kind);
      }
    }
  }

  lemma SortedParse(spec: string)
    ensures Sorted(Parse(spec), 0)
  {
    ParseIsSorted(spec, "", 0);
  }

  lemma FirstIsId(spec: string, params: seq<Zval>)
    ensures Acceptable(Parse(spec), params) && Parse(spec) != [] ==> Parse(spec)[0].name == "id"
  {
  }

  lemma {:induction false} CountsSplit(args: seq<ArgSpec>, i: nat)
    requires Sorted(args, 0)
    ensures Count(args, 0) + Count(args, 1) + Count(args, 2) == |args|
    ensures i < |args| ==> (args[i].kind == 2 <==> Unnamed(args) <= i)
    decreases |args|
  {
    if args != [] {
      var front := args[..|args| - 1];
      assert Sorted(front, 0) && forall j :: 0 <= j < |front| ==> front[j] == args[j];
      CountsSplit(front, i);
      if args[|args| - 1].kind < 2 {
        NoneNamed(args);
      }
    }
  }

  lemma {:induction false} NoneNamed(args: seq<ArgSpec>)
    requires forall j :: 0 <= j < |args| ==> args[j].kind < 2
    ensures Count(args, 2) == 0 && Unnamed(args) == |args|
  {
    if args != [] {
      NoneNamed(args[..|args| - 1]);
    }
  }

  lemma {:induction false} CountIsPositive(args: seq<ArgSpec>)
    requires args != [] && args[0].kind == 0
    ensures Count(args, 0) > 0
    decreases |args|
  {
    if |args| > 1 {
      CountIsPositive(args[..|args| - 1]);
    }
  }

  /** Positional values are bound: required and optional arguments after the id. */
  predicate Bound(args: seq<ArgSpec>, vals: seq<Option<Zval>>, params: seq<Zval>)
    requires |vals| == |args|
  {
    forall i :: 1 <= i < |args| && args[i].kind < 2 ==>
      vals[i] == (if i < |params| then Some(params[i]) else None)
  }

  lemma BaseOfPositional(args: seq<ArgSpec>, vals: seq<Option<Zval>>, params: seq<Zval>)
    requires |vals| == |args| && Bound(args, vals, params)
    ensures forall i :: 1 <= i < |args| && args[i].kind < 2 ==> vals[i] == BaseValue(args, params, i)
  {
  }

  lemma BoundNone(params: seq<Zval>)
    ensures Bound([], [], params)
  {
  }

  /** Whether the character at pos ends a name. */
  predicate Ends(spec: string, pos: nat)
    requires pos <= |spec|
  {
    pos == |spec| || spec[pos] == ',' || spec[pos] == '|'
  }

  /** The scan stands at pos inside a name: `done` and what is to come make up the whole parse. */
  predicate Onward(done: seq<ArgSpec>, spec: string, pos: nat, name: string, kind: nat)
    requires pos <= |spec|
  {
    done + ParseFrom(spec[pos..], name, kind) == Parse(spec)
  }

  lemma OnwardAtStart(spec: string)
    ensures Onward([], spec, 0, "", 0)
  {
    assert spec[0..] == spec;
  }

  lemma OnwardInName(done: seq<ArgSpec>, spec: string, pos: nat, name: string, kind: nat)
    requires pos <= |spec| && !Ends(spec, pos) && Onward(done, spec, pos, name, kind)
    ensures Onward(done, spec, pos + 1, name + [spec[pos]], kind)
  {
    assert spec[pos..][0] == spec[pos] && spec[pos..][1..] == spec[pos + 1..];
  }

  lemma OnwardAtEnd(done: seq<ArgSpec>, spec: string, pos: nat, name: string, kind: nat)
    requires pos <= |spec| && Ends(spec, pos) && Onward(done, spec, pos, name, kind)
    ensures pos == |spec| ==> done + Emit(name, kind) == Parse(spec)
    ensures pos < |spec| ==>
              Onward(done + Emit(name, kind), spec, pos + 1, "", if spec[pos] == '|' then NextKind(kind) else kind)
    ensures done == [] && name != "" ==> Parse(spec) != [] && Parse(spec)[0].name == name
  {
    if pos < |spec| {
      assert spec[pos..][0] == spec[pos] && spec[pos..][1..] == spec[pos + 1..];
    }
  }

  predicate IdFirst(args: seq<ArgSpec>) {
    args != [] ==> args[0].name == "id"
  }

  /** `Overflow`: more call arguments than the parser's array holds, so memory behind it is written. */
  datatype Status = Ready | Failure | Overflow

  class State {
    var args: seq<ArgSpec>
    var vals: seq<Option<Zval>>
    var argReq: nat
    var argOpt: nat
    var argNamed: nat
    var zids: Zval
    var curIdx: nat
    var hashPos: nat
    /** The caller's variables, written through the argument pointers. */
    var id: Option<string>
    var outs: seq<Option<Zval>>
    ghost var given: seq<Zval>

    ghost predicate Valid()
      reads this
    {
      && |vals| == |outs| == |args| == argReq + argOpt + argNamed
      && given != [] && zids == given[0] && (zids.Array? || zids.Text?)
      && (forall i :: 1 <= i < |args| ==> vals[i] == BaseValue(args, given, i))
      && (if zids.Text? then curIdx <= 1 else hashPos <= KeyCount(zids))
    }

    ghost function Pos(): nat
      reads this
    {
      if zids.Text? then curIdx else hashPos
    }

    constructor ()
    {
      args, vals, outs, given := [], [], [], [];
      argReq, argOpt, argNamed, curIdx, hashPos := 0, 0, 0, 0, 0;
      zids, id := Other(0), None;
    }

    predicate Counted()
      reads this
    {
      && |vals| == |args|
      && argReq == Count(args, 0) && argOpt == Count(args, 1) && argNamed == Count(args, 2)
    }

    /** One argument complete: its slot, its positional value if it has one, its count. */
    method Register(name: string, argType: nat, params: seq<Zval>)
      requires Counted() && Bound(args, vals, params) && argType <= 2
      modifies this`args, this`vals, this`argReq, this`argOpt, this`argNamed
      ensures Counted() && Bound(args, vals, params)
      ensures args == old(args) + [ArgSpec(name, argType)]
    {
      var argNum := |args|;
      args := args + [ArgSpec(name, argType)];
      assert args[..argNum] == old(args);
      if 0 < argNum < |params| && argType < 2 {
        vals := vals + [Some(params[argNum])];
      } else {
        vals := vals + [None];
      }
      if argType == 0 {
        argReq := argReq + 1;
      } else if argType == 1 {
        argOpt := argOpt + 1;
      } else if argType == 2 {
        argNamed := argNamed + 1;
      }
    }

    /** A name is over: an empty one is skipped, and a first one must be the id. */
    method EndName(name: string, argType: nat, params: seq<Zval>) returns (ok: bool)
      requires Counted() && Bound(args, vals, params) && argType <= 2 && IdFirst(args)
      modifies this`args, this`vals, this`argReq, this`argOpt, this`argNamed
      ensures ok <==> (old(args) == [] && name != "" ==> name == "id")
      ensures ok ==> Counted() && Bound(args, vals, params) && IdFirst(args)
      ensures ok ==> args == old(args) + Emit(name, argType)
    {
      if name != "" {
        if |args| == 0 && name != "id" {
          return false;
        }
        Register(name, argType, params);
      }
      return true;
    }

    /** The scan of pcbc_pp_begin: collects names, kinds and counts and binds positional values. */
    method Scan(spec: string, params: seq<Zval>) returns (ok: bool)
      requires Fits(Parse(spec))
      modifies this`args, this`vals, this`argReq, this`argOpt, this`argNamed
      ensures ok <==> (Parse(spec) != [] ==> Parse(spec)[0].name == "id")
      ensures ok ==> args == Parse(spec) && Counted()
      ensures ok ==> Bound(args, vals, params)
    {
      Clear();
      BoundNone(params);
      OnwardAtStart(spec);
      var pos, name, argType := 0, "", 0;
      hide Counted, Bound, Onward, Parse, Emit;
      while true
        invariant pos <= |spec| && argType <= 2 && Counted()
        invariant |vals| == |args| && Bound(args, vals, params) && IdFirst(args)
        invariant Onward(args, spec, pos, name, argType)
        decreases |spec| - pos
      {
        if pos == |spec| || spec[pos] == ',' || spec[pos] == '|' {
          OnwardAtEnd(args, spec, pos, name, argType);
          var more := EndName(name, argType, params);
          if !more {
            return false;
          }
          if pos == |spec| {
            return true;
          }
          if spec[pos] == '|' {
            if argType < 2 {
              argType := argType + 1;
            }
          }
          name := "";
        } else {
          OnwardInName(args, spec, pos, name, argType);
          name := name + [spec[pos]];
        }
        pos := pos + 1;
      }
    }

    method Clear()
      modifies this`args, this`vals, this`argReq, this`argOpt, this`argNamed
      ensures args == [] && vals == [] && Counted()
    {
      args, vals := [], [];
      argReq, argOpt, argNamed := 0, 0, 0;
    }

    /** pcbc_pp_begin.  The specification starts with a required id and keeps to the parser's limits; the
        call's own arguments are copied to a fixed array first, however many there are. */
    method Begin(spec: string, params: seq<Zval>) returns (status: Status)
      requires Fits(Parse(spec))
      requires Parse(spec) != [] && Parse(spec)[0].kind == 0
      modifies this
      ensures status == (if |params| > MAX_ARGS then Overflow
                         else if Acceptable(Parse(spec), params) then Ready else Failure)
      ensures status == Ready ==> Valid() && args == Parse(spec) && given == params && Pos() == 0
    {
      if |params| > MAX_ARGS {
        return Overflow;
      }
      hide Parse, Count, Bound, Fits, Acceptable, Sorted;
      FirstIsId(spec, params);
      SortedParse(spec);
      var ok := Scan(spec, params);
      if ok {
        ok := Bind(params);
      }
      status := if ok then Ready else Failure;
    }

    /** The rest of pcbc_pp_begin, once the specification has been scanned. */
    method Bind(params: seq<Zval>) returns (ok: bool)
      requires Counted() && Sorted(args, 0) && Bound(args, vals, params)
      requires args != [] && args[0].kind == 0 && args[0].name == "id"
      modifies this
      ensures args == old(args)
      ensures ok <==> Acceptable(args, params)
      ensures ok ==> Valid() && given == params && Pos() == 0
    {
      CountsSplit(args, 0);
      if |params| < argReq {
        return false;
      }
      CountIsPositive(args);
      zids, curIdx, hashPos := params[0], 0, 0;
      given := params;
      var unnamed := argReq + argOpt;
      if |params| > unnamed && !params[unnamed].Array? {
        return false;
      }
      BindNamed(params);
      outs := seq(|args|, i => None);
      ok := params[0].Array? || params[0].Text?;
    }

    /** Named arguments take their values from the options array, if there is one. */
    method BindNamed(params: seq<Zval>)
      requires Counted() && Sorted(args, 0) && Bound(args, vals, params)
      requires |params| > argReq + argOpt ==> params[argReq + argOpt].Array?
      modifies this`vals
      ensures |vals| == |args|
      ensures forall i :: 1 <= i < |args| ==> vals[i] == BaseValue(args, params, i)
    {
      var unnamed := argReq + argOpt;
      BaseOfPositional(args, vals, params);
      CountsSplit(args, 0);
      forall i | 0 <= i < |args| ensures args[i].kind == 2 <==> unnamed <= i {
        CountsSplit(args, i);
      }
      hide Sorted, Count, Bound;
      var ii := 0;
      while ii < argNamed
        invariant ii <= argNamed && |vals| == |args| == unnamed + argNamed
        invariant forall i :: 1 <= i < unnamed + ii ==> vals[i] == BaseValue(args, params, i)
        modifies this`vals
      {
        var aii := unnamed + ii;
        if |params| > unnamed {
          vals := vals[aii := Fetch(params[unnamed].entries, args[aii].name)];
        } else {
          vals := vals[aii := None];
        }
        assert vals[aii] == BaseValue(args, params, aii);
        ii := ii + 1;
      }
    }

    /** pcbc_pp_keycount. */
    method KeyCountOf() returns (n: nat)
      ensures n == KeyCount(zids)
    {
      match zids {
        case Text(_) => n := 1;
        case Array(entries) => n := |entries|;
        case Other(_) => n := 0;
      }
    }

    /** pcbc_pp_next. */
    method Next() returns (more: bool)
      requires Valid()
      modifies this`id, this`outs, this`curIdx, this`hashPos
      ensures Valid()
      ensures more <==> old(Pos()) < KeyCount(zids)
      ensures Pos() == old(Pos()) + (if more then 1 else 0)
      ensures more ==> id == IdOf(zids, old(Pos()))
      ensures forall i :: 1 <= i < |args| ==>
                outs[i] == (if more then OptionOf(args, given, old(Pos()), i) else BaseValue(args, given, i))
    {
      var ii := 1;
      var total := argReq + argOpt + argNamed;
      while ii < total
        invariant |outs| == |args| && (total >= 1 ==> 1 <= ii <= total)
        invariant hashPos == old(hashPos) && curIdx == old(curIdx)
        invariant forall i :: 1 <= i < ii && i < |args| ==> outs[i] == vals[i]
      {
        outs := outs[ii := vals[ii]];
        ii := ii + 1;
      }
      match zids {
        case Array(entries) =>
          if hashPos == |entries| {
            return false;
          }
          var data := entries[hashPos].value;
          match entries[hashPos].key {
            case StrKey(keystr) =>
              id := Some(keystr);
              if data.Array? {
                Override(data.entries);
              }
            case IntKey(_) =>
              id := TextOf(data);
          }
          hashPos := hashPos + 1;
          return true;
        case Text(s) =>
          if curIdx > 0 {
            return false;
          }
          id := Some(s);
          curIdx := curIdx + 1;
          return true;
      }
    }

    /** An entry's own options replace the common ones. */
    method Override(entries: seq<Entry>)
      requires |outs| == |args| == argReq + argOpt + argNamed
      modifies this`outs
      ensures |outs| == |args|
      ensures forall i :: 1 <= i < |args| ==>
                outs[i] == (if Fetch(entries, args[i].name).Some? then Fetch(entries, args[i].name) else old(outs)[i])
    {
      var ii := 1;
      while ii < argReq + argOpt + argNamed
        invariant |outs| == |args| && 1 <= ii && (|args| >= 1 ==> ii <= |args|)
        invariant forall i :: 1 <= i < ii && i < |args| ==>
                outs[i] == (if Fetch(entries, args[i].name).Some? then Fetch(entries, args[i].name) else old(outs)[i])
        invariant forall i :: ii <= i < |args| ==> outs[i] == old(outs)[i]
      {
        var zvalue := Fetch(entries, args[ii].name);
        if zvalue.Some? {
          outs := outs[ii := zvalue];
        }
        ii := ii + 1;
      }
    }
  }

  /** The callers' loop: one turn per id, in order, each with its own options and nobody else's.  The number
      of commands announced before the loop is the number scheduled in it. */
  method Iterate(state: State) returns (turns: seq<Turn>, ncmds: nat)
    requires state.Valid() && state.Pos() == 0
    modifies state`id, state`outs, state`curIdx, state`hashPos
    ensures |turns| == ncmds == KeyCount(state.zids)
    ensures forall k :: 0 <= k < |turns| ==>
              && turns[k].id == IdOf(state.zids, k)
              && |turns[k].options| == |state.args|
              && forall i :: 1 <= i < |state.args| ==> turns[k].options[i] == OptionOf(state.args, state.given, k, i)
  {
    ncmds := state.KeyCountOf();
    turns := [];
    var more := state.Next();
    while more
      invariant state.Valid() && |turns| + (if more then 1 else 0) == state.Pos() <= KeyCount(state.zids)
      invariant !more ==> state.Pos() == KeyCount(state.zids)
      invariant more ==> state.id == IdOf(state.zids, |turns|)
      invariant more ==> forall i :: 1 <= i < |state.args| ==>
                  state.outs[i] == OptionOf(state.args, state.given, |turns|, i)
      invariant forall k :: 0 <= k < |turns| ==>
                  && turns[k].id == IdOf(state.zids, k)
                  && |turns[k].options| == |state.args|
                  && forall i :: 1 <= i < |state.args| ==>
                       turns[k].options[i] == OptionOf(state.args, state.given, k, i)
      decreases KeyCount(state.zids) - |turns|
    {
      turns := turns + [Turn(state.id, state.outs)];
      more := state.Next();
    }
  }
}
