// config/parse.c, phase 1: the arguments of a command line, one after the other.
module ParseArgs {
  import opened Options
  import opened ParseRules
  import opened ParseNames
  import opened ParseIndex
  import opened Strings

  datatype ArgError =
    | NotAnOption           // a single dash
    | NoSuchOption
    | NameInvalid(name: NameError)
    | ArgumentInvalid       // a boolean that is neither y nor n
    | ArgumentMissing
    | ArgumentNotAllowed
    | SecretOption
    | NegatedTwice
    | ResetTwice
    | NegatedAndReset
    | SetAndNegated
    | SetAndReset
    | SetTwice
    | NoSuchCommand
    | NoSuchRole
    | RoleInvalid
    | HelpNotAvailable

  // What has been found so far: a value for every option and key named, the command and its parameters
  datatype Line = Line(
    found: map<(nat, nat), ParseValue>, command: nat, role: Role, commandSet: bool, helpSet: bool, help: bool,
    params: seq<string>)

  datatype Step = Next(line: Line, i: nat) | Failed(error: ArgError)

  function StartLine(t: Tables): Line {
    Line(map[], t.help, Main, false, false, false, [])
  }

  // ---- one option

  datatype Read = Read(name: Name, arg: Option<string>, i: nat) | Unread(error: ArgError)

  // The argument of an option that is neither negated nor reset
  function Argument(rule: OptionRule, n: Name, arg: Option<string>, args: seq<string>, i: nat): Read
    requires i < |args|
  {
    if rule.kind == Boolean then
      if arg == Some("n") then Read(n.(negate := true), arg, i + 1)
      else if arg.Some? && arg != Some("y") then Unread(ArgumentInvalid)
      else Read(n, arg, i + 1)
    else if arg.Some? then Read(n, arg, i + 1)
    else if rule.boolLike then Read(n, Some("y"), i + 1)
    else if i == |args| - 1 then Unread(ArgumentMissing)
    else Read(n, Some(args[i + 1]), i + 2)
  }

  function ReadOption(t: Tables, args: seq<string>, i: nat): (r: Read)
    requires i < |args|
    requires forall k :: 0 <= k < |t.deprecated| ==> t.deprecated[k].id < |t.options|
    ensures r.Read? ==> i < r.i <= |args| && r.name.id < |t.options|
  {
    if |args[i]| < 2 || args[i][1] != '-' then Unread(NotAnOption)
    else
      var body := args[i][2..];
      var equal := Find(body, '=', 0);
      var arg := if equal < |body| then Some(body[equal + 1..]) else None;
      match ReadName(t, body[..equal], true, false)
      case NotFound => Unread(NoSuchOption)
      case Invalid(error) => Unread(NameInvalid(error))
      case Found(n) =>
        var rule := t.options[n.id];
        var r := if !n.negate && !n.reset then Argument(rule, n, arg, args, i)
                 else if arg.Some? then Unread(ArgumentNotAllowed)
                 else Read(n, None, i + 1);
        if r.Unread? then r
        else if rule.secure then Unread(SecretOption)
        else if r.name.negate && rule.boolLike then Read(r.name.(negate := false), Some("n"), r.i)
        else r
  }

  // The value after one more mention of the option, when it may be mentioned again
  function Repeat(rule: OptionRule, v: ParseValue, n: Name, arg: Option<string>): (r: Merged) {
    if v.negate && n.negate then Refused(NegatedTwice)
    else if v.reset && n.reset then Refused(ResetTwice)
    else if (v.reset && n.negate) || (v.negate && n.reset) then Refused(NegatedAndReset)
    else if v.negate != n.negate then Refused(SetAndNegated)
    else if v.reset != n.reset then Refused(SetAndReset)
    else if arg.Some? && rule.multi then Merged(v.(values := v.values + [arg.value]))
    else Refused(SetTwice)
  }

  datatype Merged = Merged(value: ParseValue) | Refused(error: ArgError)

  function Merge(t: Tables, line: Line, n: Name, arg: Option<string>): Merged
    requires n.id < |t.options|
  {
    if (n.id, n.keyIdx) !in line.found then
      Merged(ParseValue(true, n.negate, n.reset, FromParam, if arg.Some? then [arg.value] else []))
    else Repeat(t.options[n.id], line.found[(n.id, n.keyIdx)], n, arg)
  }

  // ---- the command

  function RoleText(r: Role): string {
    match r
    case Main => ""
    case Async => "async"
    case Local => "local"
    case Remote => "remote"
  }

  function RoleOf(text: string): Option<Role> {
    if text == "async" then Some(Async) else if text == "local" then Some(Local)
    else if text == "remote" then Some(Remote) else None
  }

  // The first command that begins with the text
  function CommandFrom(commands: seq<CommandRule>, text: string, i: nat): (r: Option<nat>)
    requires i <= |commands|
    ensures r.Some? ==> r.value < |commands|
    decreases |commands| - i
  {
    if i == |commands| then None
    else if StartsWith(commands[i].name, text) then Some(i)
    else CommandFrom(commands, text, i + 1)
  }

  function ReadCommand(t: Tables, line: Line, arg: string, i: nat): Step {
    if line.commandSet then Next(line.(params := line.params + [arg]), i + 1)
    else
      var colon := Find(arg, ':', 0);
      match CommandFrom(t.commands, arg[..colon], 0)
      case None => Failed(NoSuchCommand)
      case Some(command) =>
        if command == t.help && !line.helpSet then Next(line.(command := command, helpSet := true), i + 1)
        else
          var role := if colon == |arg| then Some(Main) else RoleOf(arg[colon + 1..]);
          if role.None? then Failed(NoSuchRole)
          else if role.value !in t.commands[command].roles then Failed(RoleInvalid)
          else if line.helpSet && role.value != Main then Failed(HelpNotAvailable)
          else Next(line.(command := command, role := role.value, commandSet := true, help := line.helpSet), i + 1)
  }

  // ---- the arguments

  function ParseArg(t: Tables, line: Line, args: seq<string>, i: nat): (r: Step)
    requires i < |args|
    requires forall k :: 0 <= k < |t.deprecated| ==> t.deprecated[k].id < |t.options|
    ensures r.Next? ==> i < r.i <= |args|
  {
    if |args[i]| > 0 && args[i][0] == '-' then
      var r := ReadOption(t, args, i);
      if r.Unread? then Failed(r.error)
      else
        match Merge(t, line, r.name, r.arg)
        case Refused(error) => Failed(error)
        case Merged(v) => Next(line.(found := line.found[(r.name.id, r.name.keyIdx) := v]), r.i)
    else ReadCommand(t, line, args[i], i)
  }

  // Phase 1 from an argument on
  function ParseFrom(t: Tables, line: Line, args: seq<string>, i: nat): Step
    requires i <= |args|
    requires forall k :: 0 <= k < |t.deprecated| ==> t.deprecated[k].id < |t.options|
    decreases |args| - i
  {
    if i == |args| then Next(line, i)
    else
      var step := ParseArg(t, line, args, i);
      if step.Next? then ParseFrom(t, step.line, args, step.i) else step
  }

  // The loop over the arguments
  method ParseCommandLine(t: Tables, args: seq<string>) returns (r: Step)
    requires forall k :: 0 <= k < |t.deprecated| ==> t.deprecated[k].id < |t.options|
    ensures r == ParseFrom(t, StartLine(t), args, 0)
  {
    hide ReadName, CommandFrom, Find, RoleOf;
    var line := StartLine(t);
    var i := 0;
    while i < |args|
      invariant i <= |args| && ParseFrom(t, line, args, i) == ParseFrom(t, StartLine(t), args, 0)
    {
      var arg := args[i];
      if |arg| > 0 && arg[0] == '-' {
        var read := ReadArgument(t, args, i);
        if read.Unread? {
          return Failed(read.error);
        }
        var merged := Merge(t, line, read.name, read.arg);
        if merged.Refused? {
          return Failed(merged.error);
        }
        line := line.(found := line.found[(read.name.id, read.name.keyIdx) := merged.value]);
        i := read.i;
      } else {
        var step := ReadCommand(t, line, arg, i);
        if step.Failed? {
          return step;
        }
        line, i := step.line, step.i;
      }
    }
    return Next(line, i);
  }

  // One option argument
  method ReadArgument(t: Tables, args: seq<string>, i: nat) returns (r: Read)
    requires i < |args|
    requires forall k :: 0 <= k < |t.deprecated| ==> t.deprecated[k].id < |t.options|
    ensures r == ReadOption(t, args, i)
  {
    hide ReadName, Find;
    var arg := args[i];
    if |arg| < 2 || arg[1] != '-' {
      return Unread(NotAnOption);
    }
    arg := arg[2..];
    var equal := Find(arg, '=', 0);
    var name := arg[..equal];
    var optionArg := if equal < |arg| then Some(arg[equal + 1..]) else None;
    var option := CfgParseOption(t, name, true, false);
    if option.NotFound? {
      return Unread(NoSuchOption);
    }
    if option.Invalid? {
      return Unread(NameInvalid(option.error));
    }
    var n := option.name;
    var rule := t.options[n.id];
    var next := i + 1;
    if !n.negate && !n.reset {
      if rule.kind == Boolean {
        if optionArg.Some? {
          if optionArg.value == "n" {
            n := n.(negate := true);
          } else if optionArg.value != "y" {
            return Unread(ArgumentInvalid);
          }
        }
      } else if optionArg.None? {
        if rule.boolLike {
          optionArg := Some("y");
        } else if i == |args| - 1 {
          return Unread(ArgumentMissing);
        } else {
          optionArg := Some(args[i + 1]);
          next := i + 2;
        }
      }
    } else if optionArg.Some? {
      return Unread(ArgumentNotAllowed);
    }
    if n.negate && rule.boolLike {
      n := n.(negate := false);
      optionArg := Some("n");
    }
    if rule.secure {
      return Unread(SecretOption);
    }
    return Read(n, optionArg, next);
  }
}
