// config/exec.c: cfgExecParam, the command line for a child process, without replacements and quotes and for another
// host; and phase 1 of the child, which must undo it.
module Exec {
  import opened ParseRules
  import opened ParseNames
  import opened ParseIndex
  import opened ParseArgs
  import opened ParseResolve

  // What is printed: the values of the valid options by index, the index maps, and which options the child may have
  datatype Setup = Setup(t: Tables, values: Values, maps: seq<seq<nat>>, child: seq<bool>, cipherType: nat)

  // Options of a group have a value at every index of its map, other options have one value
  ghost predicate Sized(c: Setup) {
    && |c.child| == |c.t.options|
    && (forall id :: id in c.values ==> id < |c.t.options|)
    && (forall id :: 0 <= id < |c.t.options| && c.t.options[id].group.Some? ==> c.t.options[id].group.value < |c.maps|)
    && (forall id :: id in c.values ==>
          |c.values[id]| == if c.t.options[id].group.Some? then |c.maps[c.t.options[id].group.value]| else 1)
  }

  function KeyAt(c: Setup, id: nat, idx: nat): nat
    requires Sized(c) && id in c.values && idx < |c.values[id]|
  {
    if c.t.options[id].group.Some? then c.maps[c.t.options[id].group.value][idx] else 0
  }

  // cfgOptionIdxName
  function NameAt(c: Setup, id: nat, idx: nat): string
    requires WellFormed(c.t) && Sized(c) && id in c.values && idx < |c.values[id]|
  {
    KeyIdxName(c.t, id, KeyAt(c, id, idx))
  }

  // ---- what is printed for one value

  function Joined(pairs: seq<(string, string)>): (r: seq<string>)
    ensures |r| == |pairs|
  {
    seq(|pairs|, i requires 0 <= i < |pairs| => pairs[i].0 + "=" + pairs[i].1)
  }

  // The texts of a value that is not a boolean
  function Texts(v: OptionValue): seq<string> {
    match v.value
    case HashValue(pairs) => Joined(pairs)
    case ListValue(list) => list
    case _ => [v.display]
  }

  function WithTexts(name: string, texts: seq<string>): (r: seq<string>)
    ensures |r| == |texts|
  {
    seq(|texts|, i requires 0 <= i < |texts| => "--" + name + "=" + texts[i])
  }

  function ArgsOf(name: string, v: OptionValue): seq<string> {
    if v.negate then ["--no-" + name]
    else if v.source != FromDefault then
      (match v.value
       case BoolValue(b) => [(if b then "--" else "--no-") + name]
       case NoValue => if v.reset then ["--reset-" + name] else []
       case _ => WithTexts(name, Texts(v)))
    else if v.reset then ["--reset-" + name]
    else []
  }

  predicate Passed(c: Setup, id: nat)
    requires |c.child| == |c.t.options| && id < |c.t.options|
  {
    c.child[id] && !c.t.options[id].secure && id != c.cipherType && id in c.values
  }

  function IndexArgs(c: Setup, id: nat, idx: nat): seq<string>
    requires WellFormed(c.t) && Sized(c) && id in c.values && idx <= |c.values[id]|
    decreases |c.values[id]| - idx
  {
    if idx == |c.values[id]| then [] else ArgsOf(NameAt(c, id, idx), c.values[id][idx]) + IndexArgs(c, id, idx + 1)
  }

  // What is printed for one option
  function ArgsAt(c: Setup, id: nat): seq<string>
    requires WellFormed(c.t) && Sized(c) && id < |c.t.options|
  {
    if Passed(c, id) then IndexArgs(c, id, 0) else []
  }

  function OptionArgs(c: Setup, id: nat): seq<string>
    requires WellFormed(c.t) && Sized(c) && id <= |c.t.options|
    decreases |c.t.options| - id
  {
    if id == |c.t.options| then []
    else ArgsAt(c, id) + OptionArgs(c, id + 1)
  }

  // cfgParseCommandRoleName
  function CommandText(t: Tables, command: nat, role: Role): string
    requires command < |t.commands|
  {
    t.commands[command].name + (if role == Main then "" else ":" + RoleText(role))
  }

  // cfgExecParam
  method ExecParam(c: Setup, command: nat, role: Role) returns (args: seq<string>)
    requires WellFormed(c.t) && Sized(c) && command < |c.t.commands|
    ensures args == OptionArgs(c, 0) + [CommandText(c.t, command, role)]
  {
    hide WellFormed, KeyIdxName, ArgsOf;
    args := [];
    for id := 0 to |c.t.options|
      invariant args + OptionArgs(c, id) == OptionArgs(c, 0)
    {
      ghost var before := args;
      if c.child[id] && !c.t.options[id].secure && id != c.cipherType && id in c.values {
        var idx := 0;
        while idx < |c.values[id]|
          invariant idx <= |c.values[id]|
          invariant args + IndexArgs(c, id, idx) == before + IndexArgs(c, id, 0)
        {
          var more := FormatOption(NameAt(c, id, idx), c.values[id][idx]);
          Shift(args, more, IndexArgs(c, id, idx + 1));
          args := args + more;
          idx := idx + 1;
        }
        assert args == before + IndexArgs(c, id, 0);
      }
      Shift(before, ArgsAt(c, id), OptionArgs(c, id + 1));
    }
    args := args + [CommandText(c.t, command, role)];
  }

  lemma Shift(a: seq<string>, b: seq<string>, c: seq<string>)
    ensures a + b + c == a + (b + c) && a + [] == a
  {
  }

  // One index of one option
  method FormatOption(name: string, v: OptionValue) returns (args: seq<string>)
    ensures args == ArgsOf(name, v)
  {
    var value := if v.negate then BoolValue(false) else if v.source != FromDefault then v.value else NoValue;
    if value == NoValue {
      return if v.reset then ["--reset-" + name] else [];
    }
    if value.BoolValue? {
      return [(if value.boolean then "--" else "--no-") + name];
    }
    var texts := Texts(v);
    args := [];
    for i := 0 to |texts|
      invariant args == WithTexts(name, texts)[..i]
    {
      args := args + ["--" + name + "=" + texts[i]];
    }
  }

  // ---- what the child finds

  // The child's value for an index that is printed
  function ChildValue(v: OptionValue): ParseValue {
    if Negated(v) then ParseValue(true, true, false, FromParam, [])
    else if v.source != FromDefault && v.value != NoValue then
      ParseValue(true, false, false, FromParam, if v.value.BoolValue? then [] else Texts(v))
    else ParseValue(true, false, true, FromParam, [])
  }

  predicate Printed(v: OptionValue) {
    v.negate || (v.source != FromDefault && v.value != NoValue) || v.reset
  }

  predicate Negated(v: OptionValue) {
    v.negate || (v.source != FromDefault && v.value == BoolValue(false))
  }

  // What the original promises the printer: a value fits its option, and is only negated or reset where that is allowed
  predicate Printable(rule: OptionRule, v: OptionValue) {
    && (Negated(v) ==> rule.negate && !rule.boolLike)
    && (!v.negate && (v.source == FromDefault || v.value == NoValue) && v.reset ==> rule.reset)
    && (!v.negate && v.source != FromDefault && v.value != NoValue ==>
          && (v.value.BoolValue? <==> rule.kind == Boolean)
          && (!v.value.BoolValue? ==> |Texts(v)| > 0 && (|Texts(v)| > 1 ==> rule.multi)))
  }
}
