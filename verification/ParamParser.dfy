/** Argument parsing for operations on one id or many: a specification such as "id|delta|initial,expiry"
    names the arguments, and iteration gives each id its own options over the common ones. */
module ParamParser {
  import opened Wrappers

  datatype Zval = Text(s: string) | Array(entries: seq<Entry>) | Other(n: int)

  datatype HashKey = StrKey(s: string) | IntKey(n: int)

  /** Entries of a PHP array in order; keys are unique. */
  datatype Entry = Entry(key: HashKey, value: Zval)

  const MAX_ARGS: nat := 10
  const MAX_NAME: nat := 15

  /** `kind`: 0 required, 1 optional, 2 named. */
  datatype ArgSpec = ArgSpec(name: string, kind: nat)

  // ---- The specification string -------------------------------------------------------------------------

  function Emit(name: string, kind: nat): seq<ArgSpec> {
    if name == "" then [] else [ArgSpec(name, kind)]
  }

  function NextKind(kind: nat): nat {
    if kind < 2 then kind + 1 else kind
  }

  /** The arguments still to come, with `name` collected so far. */
  function ParseFrom(spec: string, name: string, kind: nat): seq<ArgSpec>
    decreases |spec|
  {
    if spec == "" then Emit(name, kind)
    else if spec[0] == '|' then Emit(name, kind) + ParseFrom(spec[1..], "", NextKind(kind))
    else if spec[0] == ',' then Emit(name, kind) + ParseFrom(spec[1..], "", kind)
    else ParseFrom(spec[1..], name + [spec[0]], kind)
  }

  function Parse(spec: string): seq<ArgSpec> {
    ParseFrom(spec, "", 0)
  }

  predicate Plain(name: string) {
    name != "" && forall i :: 0 <= i < |name| ==> name[i] != '|' && name[i] != ','
  }

  /** Names separated by commas. */
  function Joined(names: seq<string>): string {
    if names == [] then ""
    else if |names| == 1 then names[0]
    else names[0] + [','] + Joined(names[1..])
  }

  /** Sections separated by bars. */
  function Written(sections: seq<seq<string>>): string {
    if sections == [] then ""
    else if |sections| == 1 then Joined(sections[0])
    else Joined(sections[0]) + ['|'] + Written(sections[1..])
  }

  function Args(names: seq<string>, kind: nat): (r: seq<ArgSpec>)
    ensures |r| == |names|
  {
    seq(|names|, i requires 0 <= i < |names| => ArgSpec(names[i], kind))
  }

  function AllArgs(sections: seq<seq<string>>, kind: nat): seq<ArgSpec>
    decreases |sections|
  {
    if sections == [] then [] else Args(sections[0], kind) + AllArgs(sections[1..], NextKind(kind))
  }

  predicate PlainSections(sections: seq<seq<string>>) {
    forall i, j :: 0 <= i < |sections| && 0 <= j < |sections[i]| ==> Plain(sections[i][j])
  }

  lemma {:induction false} ParseName(name: string, got: string, rest: string, kind: nat)
    requires forall i :: 0 <= i < |name| ==> name[i] != '|' && name[i] != ','
    ensures ParseFrom(name + rest, got, kind) == ParseFrom(rest, got + name, kind)
    decreases |name|
  {
    if name == "" {
      assert name + rest == rest && got + name == got;
    } else {
      assert (name + rest)[1..] == name[1..] + rest;
      assert got + [name[0]] + name[1..] == got + name;
      ParseName(name[1..], got + [name[0]], rest, kind);
    }
  }

  /** A name collected ends at a bar or at the end of the text. */
  lemma ParseNameEnd(name: string, rest: string, kind: nat)
    requires rest != "" ==> rest[0] == '|'
    ensures ParseFrom(rest, name, kind) == Emit(name, kind) + ParseFrom(rest, "", kind)
  {
    assert Emit("", kind) == [];
  }

  lemma ParseLastName(name: string, rest: string, kind: nat)
    requires Plain(name) && (rest != "" ==> rest[0] == '|')
    ensures ParseFrom(name + rest, "", kind) == [ArgSpec(name, kind)] + ParseFrom(rest, "", kind)
  {
    hide ParseFrom;
    ParseName(name, "", rest, kind);
    assert "" + name == name;
    ParseNameEnd(name, rest, kind);
  }

  lemma ParseFirstName(name: string, rest: string, kind: nat)
    requires Plain(name)
    ensures ParseFrom(name + [','] + rest, "", kind) == [ArgSpec(name, kind)] + ParseFrom(rest, "", kind)
  {
    assert name + [','] + rest == name + ([','] + rest);
    ParseName(name, "", [','] + rest, kind);
    assert "" + name == name && ([','] + rest)[1..] == rest;
  }

  lemma {:induction false} ParseNames(names: seq<string>, rest: string, kind: nat)
    requires forall j :: 0 <= j < |names| ==> Plain(names[j])
    requires rest != "" ==> rest[0] == '|'
    ensures ParseFrom(Joined(names) + rest, "", kind) == Args(names, kind) + ParseFrom(rest, "", kind)
    decreases |names|
  {
    hide ParseFrom, Plain;
    if names == [] {
      assert Joined(names) + rest == rest && Args(names, kind) + ParseFrom(rest, "", kind) == ParseFrom(rest, "", kind);
    } else {
      assert Plain(names[0]);
      assert Args(names, kind) == [ArgSpec(names[0], kind)] + Args(names[1..], kind);
      if |names| == 1 {
        ParseLastName(names[0], rest, kind);
      } else {
        assert Joined(names) + rest == names[0] + [','] + (Joined(names[1..]) + rest);
        ParseFirstName(names[0], Joined(names[1..]) + rest, kind);
        ParseNames(names[1..], rest, kind);
      }
    }
  }

  /** Whatever names are written in whatever sections, the parser reads them back with their kinds. */
  lemma {:induction false} ParseWritten(sections: seq<seq<string>>, kind: nat)
    requires PlainSections(sections)
    ensures ParseFrom(Written(sections), "", kind) == AllArgs(sections, kind)
    decreases |sections|
  {
    if sections == [] {
    } else if |sections| == 1 {
      assert Joined(sections[0]) + "" == Joined(sections[0]);
      ParseNames(sections[0], "", kind);
      assert sections[1..] == [];
    } else {
      var rest := Written(sections[1..]);
      assert Joined(sections[0]) + ['|'] + rest == Joined(sections[0]) + (['|'] + rest);
      ParseNames(sections[0], ['|'] + rest, kind);
      assert (['|'] + rest)[1..] == rest;
      assert PlainSections(sections[1..]) by {
        assert forall i, j :: 0 <= i < |sections[1..]| && 0 <= j < |sections[1..][i]| ==>
            sections[1..][i][j] == sections[i + 1][j];
      }
      ParseWritten(sections[1..], NextKind(kind));
      assert ParseFrom(['|'] + rest, "", kind) == ParseFrom(rest, "", NextKind(kind));
    }
  }

  // ---- Values -------------------------------------------------------------------------------------------

  /** php_array_fetch: the value under a string key. */
  function Fetch(entries: seq<Entry>, name: string): (v: Option<Zval>)
    ensures v.Some? ==> exists i :: 0 <= i < |entries| && entries[i].key == StrKey(name) && entries[i].value == v.value
    ensures v.None? ==> forall i :: 0 <= i < |entries| ==> entries[i].key != StrKey(name)
  {
    if entries == [] then None
    else if entries[0].key == StrKey(name) then Some(entries[0].value)
    else
      var v := Fetch(entries[1..], name);
      assert forall i :: 1 <= i < |entries| ==> entries[i] == entries[1..][i - 1];
      v
  }

  function Count(args: seq<ArgSpec>, kind: nat): nat {
    if args == [] then 0 else Count(args[..|args| - 1], kind) + (if args[|args| - 1].kind == kind then 1 else 0)
  }

  function Unnamed(args: seq<ArgSpec>): nat {
    Count(args, 0) + Count(args, 1)
  }

  /** The size limits of the parser's fixed arrays. */
  predicate Fits(args: seq<ArgSpec>) {
    |args| <= MAX_ARGS && forall i :: 0 <= i < |args| ==> |args[i].name| <= MAX_NAME
  }

  /** The common value of each argument: the positional one, or the one in the options array. */
  function BaseValue(args: seq<ArgSpec>, given: seq<Zval>, i: nat): Option<Zval>
    requires i < |args|
  {
    if args[i].kind < 2 then
      if 0 < i < |given| then Some(given[i]) else None
    else if |given| > Unnamed(args) && given[Unnamed(args)].Array? then
      Fetch(given[Unnamed(args)].entries, args[i].name)
    else None
  }

  predicate Acceptable(args: seq<ArgSpec>, given: seq<Zval>) {
    && (args != [] ==> args[0].name == "id")
    && |given| >= Count(args, 0)
    && (|given| > Unnamed(args) ==> given[Unnamed(args)].Array?)
    && given != [] && (given[0].Array? || given[0].Text?)
  }

  // ---- Iteration ------------------------------------------------------------------------------------------

  /** One turn's outputs: the id, and the options of arguments 1 and up (0 stands for the id itself).  An id
      that is `None` was read from a value that is not a string. */
  datatype Turn = Turn(id: Option<string>, options: seq<Option<Zval>>)

  function KeyCount(ids: Zval): nat {
    match ids
    case Text(_) => 1
    case Array(entries) => |entries|
    case Other(_) => 0
  }

  function TextOf(v: Zval): Option<string> {
    if v.Text? then Some(v.s) else None
  }

  /** An option of the k-th id: its own entry's if it has one under a string key, else the common one. */
  function OptionOf(args: seq<ArgSpec>, given: seq<Zval>, k: nat, i: nat): Option<Zval>
    requires given != [] && k < KeyCount(given[0]) && 1 <= i < |args|
  {
    var base := BaseValue(args, given, i);
    if !given[0].Array? then base
    else
      var e := given[0].entries[k];
      if e.key.StrKey? && e.value.Array? then
        var own := Fetch(e.value.entries, args[i].name);
        if own.Some? then own else base
      else base
  }

  /** Under an integer key the value itself is the id. */
  function IdOf(ids: Zval, k: nat): Option<string>
    requires k < KeyCount(ids)
  {
    match ids
    case Text(s) => Some(s)
    case Array(entries) =>
      match entries[k].key
      case StrKey(s) => Some(s)
      case IntKey(_) => TextOf(entries[k].value)
  }
}
