// config/parse.c: the generated tables that say how options are parsed. The tables themselves are parameters;
// WellFormed states what the proofs need of them.
module ParseRules {
  import opened Decimals
  import opened Options
  import opened Strings

  const UINT32 := 0x1_0000_0000
  const KEY_MAX := 256
  const NAME_SIZE_MAX := 64

  datatype OptionType = Boolean | Hash | Integer | List | Path | Size | String | StringId | Time

  // The values an option may depend on; with none given any value will do
  datatype DependList = AnyValue | Booleans(booleans: seq<bool>) | Ids(ids: seq<nat>)

  // The option depended on, and the default of this option where the dependency is not resolved
  datatype Depend = Depend(default: Option<bool>, id: nat, list: DependList)

  // A value of an option; lists and hashes keep their order
  datatype Value =
    | NoValue
    | BoolValue(boolean: bool)
    | IntValue(integer: int)
    | IdValue(id: nat)
    | TextValue(text: string)
    | ListValue(list: seq<string>)
    | HashValue(pairs: seq<(string, string)>)

  // A value an option may have, and whether the program was built to support it
  datatype Allowed = Allowed(value: Value, built: bool)

  // The rules an option may have for some commands, in the order of their types
  datatype Rule =
    | Valid(depend: Depend)
    | AllowRange(min: int, max: int)
    | AllowList(values: seq<Allowed>)
    | Default(value: Value)
    | Required

  function TypeOf(r: Rule): nat {
    match r
    case Valid(_) => 1
    case AllowRange(_, _) => 2
    case AllowList(_) => 3
    case Default(_) => 4
    case Required => 5
  }

  // Rules for some commands, or for all of them
  datatype RuleGroup = RuleGroup(commands: Option<seq<nat>>, rules: seq<Rule>)

  ghost predicate Ascending(rules: seq<Rule>) {
    forall i, j :: 0 <= i < j < |rules| ==> TypeOf(rules[i]) < TypeOf(rules[j])
  }

  ghost predicate AscendingRules(g: RuleGroup) {
    |g.rules| > 0 && Ascending(g.rules)
  }

  datatype OptionRule = OptionRule(
    name: string, kind: OptionType, boolLike: bool, beta: bool, negate: bool, reset: bool, required: bool, secure: bool,
    multi: bool, group: Option<nat>, deprecateMatch: bool, pack: seq<RuleGroup>)

  datatype Deprecated = Deprecated(name: string, id: nat, indexed: bool, unindexed: bool)

  datatype Role = Main | Async | Local | Remote

  datatype CommandRule = CommandRule(name: string, roles: set<Role>)

  // The tables of options, of the names of option groups, of deprecated names and of commands, and the help command
  datatype Tables = Tables(
    options: seq<OptionRule>, groups: seq<string>, deprecated: seq<Deprecated>, commands: seq<CommandRule>, help: nat)

  // Group names have no digits or dashes, and an option of a group is named after it
  predicate GroupNamed(t: Tables, r: OptionRule)
    requires r.group.Some?
  {
    && r.group.value < |t.groups|
    && var g := t.groups[r.group.value];
       && |g| > 0
       && (forall c :: c in g ==> c != '-' && !IsDigit(c))
       && StartsWith(r.name, g) && |r.name| > |g| && r.name[|g|] == '-'
  }

  // Other options do not look as if they had a key or a prefix
  predicate PlainNamed(r: OptionRule) {
    var dash := Find(r.name, '-', 0);
    && |r.name| > 0
    && (dash < |r.name| ==> dash > 0 && !IsDigit(r.name[dash - 1]))
    && !StartsWith(r.name, "no-") && !StartsWith(r.name, "reset-")
  }

  ghost predicate WellFormed(t: Tables) {
    && (forall i, j :: 0 <= i < j < |t.options| ==> t.options[i].name != t.options[j].name)
    && (forall i :: 0 <= i < |t.options| ==>
          if t.options[i].group.Some? then GroupNamed(t, t.options[i]) else PlainNamed(t.options[i]))
    && (forall i :: 0 <= i < |t.deprecated| ==> t.deprecated[i].id < |t.options|)
    && (forall i :: 0 <= i < |t.options| ==> '=' !in t.options[i].name)
    && (forall i :: 0 <= i < |t.groups| ==> '=' !in t.groups[i])
    && (forall i :: 0 <= i < |t.commands| ==> CommandNamed(t.commands[i].name))
    && (forall i, j :: 0 <= i < j < |t.commands| ==> !StartsWith(t.commands[i].name, t.commands[j].name))
  }

  // A command does not look like an option and has no role in its name
  predicate CommandNamed(name: string) {
    |name| > 0 && name[0] != '-' && ':' !in name
  }
}
