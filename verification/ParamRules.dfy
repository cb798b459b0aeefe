/** What argument parsing comes to, rule by rule: the kinds of the arguments written in each section, which calls
    are accepted, the ids, and where each option of each id comes from. */
module ParamRules {
  import opened Wrappers
  import opened ParamParser
  import opened ParamIterator

  // ---- Sections -----------------------------------------------------------------------------------------------

  /** How many names stand in the first j sections. */
  function Before(sections: seq<seq<string>>, j: nat): nat
    requires j <= |sections|
  {
    if j == 0 then 0 else |sections[0]| + Before(sections[1..], j - 1)
  }

  lemma {:induction false} AllArgsAt(sections: seq<seq<string>>, kind: nat, j: nat, i: nat)
    requires kind <= 2 && j < |sections| && i < |sections[j]|
    ensures Before(sections, j) + i < |AllArgs(sections, kind)|
    ensures AllArgs(sections, kind)[Before(sections, j) + i]
         == ArgSpec(sections[j][i], if kind + j < 2 then kind + j else 2)
    decreases |sections|
  {
    if j > 0 {
      AllArgsAt(sections[1..], NextKind(kind), j - 1, i);
    }
  }

  lemma {:induction false} AllArgsCount(sections: seq<seq<string>>, kind: nat)
    ensures |AllArgs(sections, kind)| == Before(sections, |sections|)
    decreases |sections|
  {
    if sections != [] {
      AllArgsCount(sections[1..], NextKind(kind));
    }
  }

  /** The names of the first section are required, those of the second optional, all later ones named; each
      is read once, in its place. */
  lemma SectionRule(sections: seq<seq<string>>, j: nat, i: nat)
    requires PlainSections(sections)
    ensures |Parse(Written(sections))| == Before(sections, |sections|)
    ensures j < |sections| && i < |sections[j]| ==>
              && Before(sections, j) + i < |Parse(Written(sections))|
              && Parse(Written(sections))[Before(sections, j) + i]
                 == ArgSpec(sections[j][i], if j == 0 then 0 else if j == 1 then 1 else 2)
  {
    ParseWritten(sections, 0);
    AllArgsCount(sections, 0);
    if j < |sections| && i < |sections[j]| {
      AllArgsAt(sections, 0, j, i);
    }
  }

  // ---- PHP arrays ---------------------------------------------------------------------------------------------

  /** A PHP array has each key once. */
  predicate KeysUnique(entries: seq<Entry>) {
    forall i, j :: 0 <= i < j < |entries| ==> entries[i].key != entries[j].key
  }

  predicate Has(entries: seq<Entry>, name: string, z: Zval) {
    exists i :: 0 <= i < |entries| && entries[i] == Entry(StrKey(name), z)
  }

  lemma FetchHas(entries: seq<Entry>, name: string)
    requires KeysUnique(entries)
    ensures forall z :: Fetch(entries, name) == Some(z) <==> Has(entries, name, z)
  {
    hide Fetch;
    var v := Fetch(entries, name);
    if v.Some? {
      var i :| 0 <= i < |entries| && entries[i].key == StrKey(name) && entries[i].value == v.value;
      assert entries[i] == Entry(StrKey(name), v.value);
    }
  }

  // ---- Which calls are accepted -----------------------------------------------------------------------------------

  /** The first `required` arguments are required, those from `named` on are named. */
  predicate Divided(args: seq<ArgSpec>, required: nat, named: nat) {
    && required <= named <= |args|
    && (forall i :: 0 <= i < |args| ==>
          args[i].kind == (if i < required then 0 else if i < named then 1 else 2))
  }

  lemma {:induction false} CountsOf(args: seq<ArgSpec>, required: nat, named: nat)
    requires Divided(args, required, named)
    ensures Count(args, 0) == required && Unnamed(args) == named
    decreases |args|
  {
    if args != [] {
      var n := |args| - 1;
      var front := args[..n];
      CountsOf(front, if required <= n then required else n, if named <= n then named else n);
    }
  }

  /** A call is accepted if and only if the first name is id, there is an id that is text or an array, no
      required argument is missing, and what follows the positional ones, if anything, is an array. */
  lemma AcceptedRule(args: seq<ArgSpec>, given: seq<Zval>, required: nat, named: nat)
    requires args != [] && Divided(args, required, named)
    ensures Acceptable(args, given)
       <==> && args[0].name == "id"
            && |given| >= required && |given| >= 1
            && (given[0].Text? || given[0].Array?)
            && (|given| > named ==> given[named].Array?)
  {
    CountsOf(args, required, named);
  }

  // ---- What each id gets ------------------------------------------------------------------------------------------

  /** A text is the one id; an array has one per entry: its key, or its value under an integer key. */
  lemma IdRule(ids: Zval, k: nat)
    ensures ids.Text? ==> KeyCount(ids) == 1 && IdOf(ids, 0) == Some(ids.s)
    ensures ids.Array? ==> KeyCount(ids) == |ids.entries|
    ensures ids.Array? && k < |ids.entries| ==>
              var e := ids.entries[k];
              && (e.key.StrKey? ==> IdOf(ids, k) == Some(e.key.s))
              && (e.key.IntKey? && e.value.Text? ==> IdOf(ids, k) == Some(e.value.s))
              && (e.key.IntKey? && !e.value.Text? ==> IdOf(ids, k) == None)
    ensures ids.Other? ==> KeyCount(ids) == 0
  {
  }

  /** The k-th id brings its own value for the name. */
  predicate Own(ids: Zval, k: nat, name: string, z: Zval) {
    && ids.Array? && k < |ids.entries|
    && ids.entries[k].key.StrKey? && ids.entries[k].value.Array?
    && Has(ids.entries[k].value.entries, name, z)
  }

  predicate OwnKeysUnique(ids: Zval, k: nat) {
    ids.Array? && k < |ids.entries| && ids.entries[k].value.Array? ==> KeysUnique(ids.entries[k].value.entries)
  }

  /** The value the call gives all ids: the argument in its place, or, for a named one, the value under its
      name in the array behind the positional arguments. */
  predicate Common(args: seq<ArgSpec>, given: seq<Zval>, named: nat, i: nat, z: Zval)
    requires i < |args|
  {
    if i < named then i < |given| && given[i] == z
    else named < |given| && given[named].Array? && Has(given[named].entries, args[i].name, z)
  }

  /** An id's own value for an option wins over the common one; without either there is none. */
  lemma OptionRule(args: seq<ArgSpec>, given: seq<Zval>, required: nat, named: nat, k: nat, i: nat)
    requires Divided(args, required, named) && given != [] && k < KeyCount(given[0]) && 1 <= i < |args|
    requires OwnKeysUnique(given[0], k)
    requires named < |given| && given[named].Array? ==> KeysUnique(given[named].entries)
    ensures forall z :: OptionOf(args, given, k, i) == Some(z)
                   <==> || Own(given[0], k, args[i].name, z)
                        || ((forall own :: !Own(given[0], k, args[i].name, own)) && Common(args, given, named, i, z))
  {
    CountsOf(args, required, named);
    if named < |given| && given[named].Array? {
      FetchHas(given[named].entries, args[i].name);
    }
    CommonIs(args, given, required, named, i);
    hide BaseValue, Common, Fetch, Has;
    if given[0].Array? && given[0].entries[k].key.StrKey? && given[0].entries[k].value.Array? {
      var own := given[0].entries[k].value.entries;
      FetchHas(own, args[i].name);
      var v := Fetch(own, args[i].name);
      if v.Some? {
        assert Own(given[0], k, args[i].name, v.value);
      }
    }
  }

  lemma CommonIs(args: seq<ArgSpec>, given: seq<Zval>, required: nat, named: nat, i: nat)
    requires Divided(args, required, named) && 1 <= i < |args|
    requires named < |given| && given[named].Array? ==> KeysUnique(given[named].entries)
    ensures forall z :: BaseValue(args, given, i) == Some(z) <==> Common(args, given, named, i, z)
  {
    hide Fetch, Has;
    CountsOf(args, required, named);
    if named < |given| && given[named].Array? {
      FetchHas(given[named].entries, args[i].name);
    }
  }

  /** Every specification's arguments are so divided. */
  lemma ParseDivides(spec: string) returns (required: nat, named: nat)
    ensures Divided(Parse(spec), required, named)
  {
    SortedParse(spec);
    hide Parse;
    required, named := DivideSorted(Parse(spec));
  }

  lemma {:induction false} DivideSorted(args: seq<ArgSpec>) returns (required: nat, named: nat)
    requires Sorted(args, 0)
    ensures Divided(args, required, named)
    decreases |args|
  {
    if args == [] {
      required, named := 0, 0;
    } else {
      var n := |args| - 1;
      required, named := DivideSorted(args[..n]);
      assert forall i :: 0 <= i < n ==> args[..n][i] == args[i];
      if args[n].kind == 0 {
        required, named := n + 1, n + 1;
      } else if args[n].kind == 1 {
        named := n + 1;
      }
    }
  }
}
