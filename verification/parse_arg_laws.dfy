// What phase 1 makes of each form an argument can have, what it never takes, and what it leaves for the later phases.
module ParseArgLaws {
  import opened Decimals
  import opened Options
  import opened ParseRules
  import opened ParseNames
  import opened ParseIndex
  import opened ParseArgs
  import opened Strings

  // ---- one argument

  // A name has no "=", so the argument splits where the printer put it
  lemma NameHasNoEqual(t: Tables, id: nat, k: nat)
    requires WellFormed(t) && id < |t.options|
    ensures '=' !in KeyIdxName(t, id, k)
  {
    var rule := t.options[id];
    assert '=' !in rule.name;
    if rule.group.Some? {
      var g := t.groups[rule.group.value];
      assert '=' !in g;
      var d := Digits(k + 1);
      forall c | c in d
        ensures c != '='
      {
        var j :| 0 <= j < |d| && d[j] == c;
      }
      assert forall c :: c in rule.name[|g|..] ==> c in rule.name;
    }
  }

  lemma SplitAtEqual(name: string, text: string)
    requires '=' !in name
    ensures Find(name + "=" + text, '=', 0) == |name| && (name + "=" + text)[..|name|] == name
    ensures (name + "=" + text)[|name| + 1..] == text
    ensures Find(name, '=', 0) == |name|
  {
    var s := name + "=" + text;
    assert forall k :: 0 <= k < |name| ==> s[k] == name[k];
    FindIs(s, '=', 0, |name|);
    FindIs(name, '=', 0, |name|);
  }

  predicate NameFits(t: Tables, id: nat, k: nat, p: Prefix)
    requires WellFormed(t) && id < |t.options|
  {
    k < KEY_MAX && (t.options[id].group.None? ==> k == 0) && |PrefixText(p) + KeyIdxName(t, id, k)| <= NAME_SIZE_MAX
  }

  function NameFor(t: Tables, id: nat, k: nat, p: Prefix): Name
    requires id < |t.options|
  {
    Name(id, k, p == Negate, p == Reset, t.options[id].group.None? && t.options[id].deprecateMatch)
  }

  lemma PrefixHasNoEqual(p: Prefix)
    ensures '=' !in PrefixText(p)
  {
  }

  // An option with a text
  lemma ReadText(t: Tables, args: seq<string>, i: nat, id: nat, k: nat, text: string)
    requires WellFormed(t) && id < |t.options| && i < |args| && NameFits(t, id, k, Plain)
    requires args[i] == "--" + KeyIdxName(t, id, k) + "=" + text
    requires t.options[id].kind != Boolean && !t.options[id].secure
    ensures ReadOption(t, args, i) == Read(NameFor(t, id, k, Plain), Some(text), i + 1)
  {
    hide KeyIdxName, ReadName, Find;
    var name := KeyIdxName(t, id, k);
    var body := args[i][2..];
    assert body == name + "=" + text && args[i][1] == '-';
    NameHasNoEqual(t, id, k);
    SplitAtEqual(name, text);
    NameRoundTrip(t, id, k, Plain, true, false);
    assert PrefixText(Plain) + name == name;
  }

  // An option with a prefix, or a boolean, and no text
  lemma ReadBare(t: Tables, args: seq<string>, i: nat, id: nat, k: nat, p: Prefix)
    requires WellFormed(t) && id < |t.options| && i < |args| && NameFits(t, id, k, p)
    requires args[i] == "--" + (PrefixText(p) + KeyIdxName(t, id, k))
    requires p == Plain ==> t.options[id].kind == Boolean
    requires p == Negate ==> t.options[id].negate && !t.options[id].boolLike
    requires p == Reset ==> t.options[id].reset
    requires !t.options[id].secure
    ensures ReadOption(t, args, i) == Read(NameFor(t, id, k, p), None, i + 1)
  {
    hide KeyIdxName, ReadName, Find;
    var name := PrefixText(p) + KeyIdxName(t, id, k);
    var body := args[i][2..];
    assert body == name && args[i][1] == '-';
    NameHasNoEqual(t, id, k);
    PrefixHasNoEqual(p);
    SplitAtEqual(name, "");
    assert body[..|name|] == name;
    NameRoundTrip(t, id, k, p, true, false);
  }

  // An argument as it is written: an option, perhaps with a prefix, and perhaps with a text
  function Written(t: Tables, id: nat, k: nat, p: Prefix, text: Option<string>): string
    requires WellFormed(t) && id < |t.options|
  {
    "--" + (PrefixText(p) + KeyIdxName(t, id, k) + if text.Some? then "=" + text.value else "")
  }

  // The prefix is one the option may have
  predicate MayHave(rule: OptionRule, p: Prefix) {
    (p == Negate ==> rule.negate) && (p == Reset ==> rule.reset)
  }

  lemma NamedArg(t: Tables, id: nat, k: nat, p: Prefix, text: Option<string>)
    requires WellFormed(t) && id < |t.options| && NameFits(t, id, k, p)
    ensures
      var arg := Written(t, id, k, p, text);
      && |arg| >= 2 && arg[0] == '-' && arg[1] == '-'
      && var body := arg[2..];
         var equal := Find(body, '=', 0);
         && body[..equal] == PrefixText(p) + KeyIdxName(t, id, k)
         && text == if equal < |body| then Some(body[equal + 1..]) else None
  {
    hide KeyIdxName, Find, GroupNamed, PlainNamed;
    var name := PrefixText(p) + KeyIdxName(t, id, k);
    var rest := name + if text.Some? then "=" + text.value else "";
    assert Written(t, id, k, p, text)[2..] == rest;
    NameHasNoEqual(t, id, k);
    PrefixHasNoEqual(p);
    if text.Some? {
      SplitAtEqual(name, text.value);
      assert rest == name + "=" + text.value;
    } else {
      SplitAtEqual(name, "");
      assert rest == name && name[..|name|] == name;
    }
  }

  // Every form of an option argument. A boolean may be followed by "y", which changes nothing, or by "n", which negates
  // it. Another option takes the text after "=", or else the next argument, unless it is bool-like, when it is "y". A
  // negated bool-like option is not negated but "n".
  lemma OptionExactly(t: Tables, args: seq<string>, i: nat, id: nat, k: nat, p: Prefix, text: Option<string>)
    requires WellFormed(t) && id < |t.options| && i < |args| && NameFits(t, id, k, p)
    requires args[i] == Written(t, id, k, p, text)
    ensures
      var rule, r := t.options[id], ReadOption(t, args, i);
      var plain := NameFor(t, id, k, Plain);
      && (p == Negate && !rule.negate ==> r == Unread(NameInvalid(CannotBeNegated)))
      && (p == Reset && !rule.reset ==> r == Unread(NameInvalid(CannotBeReset)))
      && (p != Plain && MayHave(rule, p) && text.Some? ==> r == Unread(ArgumentNotAllowed))
      && (p == Plain && rule.kind == Boolean && text.Some? && text.value != "y" && text.value != "n" ==>
            r == Unread(ArgumentInvalid))
      && (p == Plain && rule.kind != Boolean && !rule.boolLike && text.None? && i + 1 == |args| ==>
            r == Unread(ArgumentMissing))
      && (rule.secure ==> r.Unread?)
      && (!rule.secure && MayHave(rule, p) ==>
            && (p == Plain && rule.kind == Boolean && (text == None || text == Some("y")) ==>
                  r == Read(plain, text, i + 1))
            && (p == Plain && rule.kind == Boolean && !rule.boolLike && text == Some("n") ==>
                  r == Read(plain.(negate := true), text, i + 1))
            && (p == Plain && rule.kind == Boolean && rule.boolLike && text == Some("n") ==>
                  r == Read(plain, text, i + 1))
            && (p == Plain && rule.kind != Boolean && text.Some? ==> r == Read(plain, text, i + 1))
            && (p == Plain && rule.kind != Boolean && rule.boolLike && text.None? ==>
                  r == Read(plain, Some("y"), i + 1))
            && (p == Plain && rule.kind != Boolean && !rule.boolLike && text.None? && i + 1 < |args| ==>
                  r == Read(plain, Some(args[i + 1]), i + 2))
            && (p == Negate && rule.boolLike && text.None? ==> r == Read(plain, Some("n"), i + 1))
            && ((p == Reset || (p == Negate && !rule.boolLike)) && text.None? ==>
                  r == Read(NameFor(t, id, k, p), None, i + 1)))
  {
    hide KeyIdxName, ReadName, Find, GroupNamed, PlainNamed, Written;
    NamedArg(t, id, k, p, text);
    NameRoundTrip(t, id, k, p, true, false);
  }

  // An argument with a single dash is no option
  lemma SingleDash(t: Tables, args: seq<string>, i: nat)
    requires WellFormed(t) && i < |args| && args[i] != "" && args[i][0] == '-'
    ensures ReadOption(t, args, i) == Unread(NotAnOption) <==> |args[i]| == 1 || args[i][1] != '-'
  {
    hide ReadName, Find;
  }

  // ---- what is never taken

  // What is read is never a secret, never both negated and reset, and has a text when it needs one
  ghost predicate Fair(t: Tables, n: Name, arg: Option<string>) {
    && n.id < |t.options|
    && var rule := t.options[n.id];
       && !rule.secure && !(n.negate && n.reset)
       && (n.negate ==> !rule.boolLike && (rule.negate || rule.kind == Boolean))
       && (n.reset ==> rule.reset) && ((n.negate && rule.kind != Boolean) || n.reset ==> arg.None?)
       && (rule.kind != Boolean && !n.negate && !n.reset ==> arg.Some?)
  }

  lemma NameFair(t: Tables, candidate: string, prefixMatch: bool, ignoreMissingIndex: bool)
    requires forall n :: 0 <= n < |t.deprecated| ==> t.deprecated[n].id < |t.options|
    ensures
      match ReadName(t, candidate, prefixMatch, ignoreMissingIndex)
      case Found(n) =>
        !(n.negate && n.reset) && (n.negate ==> t.options[n.id].negate) && (n.reset ==> t.options[n.id].reset)
      case _ => true
  {
    hide SplitKey, Lookup, StartsWith;
  }

  lemma ReadFair(t: Tables, args: seq<string>, i: nat)
    requires i < |args| && forall n :: 0 <= n < |t.deprecated| ==> t.deprecated[n].id < |t.options|
    ensures ReadOption(t, args, i).Read? ==> Fair(t, ReadOption(t, args, i).name, ReadOption(t, args, i).arg)
  {
    hide ReadName, Find;
    if |args[i]| >= 2 {
      var body := args[i][2..];
      NameFair(t, body[..Find(body, '=', 0)], true, false);
    }
  }

  // ---- an option that is named again

  // Only a text may be given again, to an option that takes many; everything else is refused for what the two do not
  // agree on
  lemma MergeExactly(t: Tables, line: Line, n: Name, arg: Option<string>)
    requires n.id < |t.options| && !(n.negate && n.reset)
    requires (n.id, n.keyIdx) in line.found ==>
               !(line.found[(n.id, n.keyIdx)].negate && line.found[(n.id, n.keyIdx)].reset)
    ensures (n.id, n.keyIdx) !in line.found ==>
              Merge(t, line, n, arg)
              == Merged(ParseValue(true, n.negate, n.reset, FromParam, if arg.Some? then [arg.value] else []))
    ensures
      (n.id, n.keyIdx) in line.found ==>
        var v, m := line.found[(n.id, n.keyIdx)], Merge(t, line, n, arg);
        var given, again := !v.negate && !v.reset, !n.negate && !n.reset;
        && (given && again ==>
              m == if t.options[n.id].multi && arg.Some? then Merged(v.(values := v.values + [arg.value]))
                   else Refused(SetTwice))
        && (m == Refused(NegatedTwice) <==> v.negate && n.negate)
        && (m == Refused(ResetTwice) <==> v.reset && n.reset)
        && (m == Refused(NegatedAndReset) <==> (v.negate && n.reset) || (v.reset && n.negate))
        && (m == Refused(SetAndNegated) <==> (given && n.negate) || (v.negate && again))
        && (m == Refused(SetAndReset) <==> (given && n.reset) || (v.reset && again))
  {
  }

  // ---- a whole command line

  predicate IsDashed(arg: string) {
    |arg| > 0 && arg[0] == '-'
  }

  // The options named from an argument on, with their texts
  function Mentions(t: Tables, args: seq<string>, i: nat): seq<(Name, Option<string>)>
    requires i <= |args| && forall n :: 0 <= n < |t.deprecated| ==> t.deprecated[n].id < |t.options|
    decreases |args| - i
  {
    if i == |args| then []
    else if !IsDashed(args[i]) then Mentions(t, args, i + 1)
    else
      var r := ReadOption(t, args, i);
      if r.Unread? then [] else [(r.name, r.arg)] + Mentions(t, args, r.i)
  }

  // The arguments that are neither options nor their texts
  function Words(t: Tables, args: seq<string>, i: nat): seq<string>
    requires i <= |args| && forall n :: 0 <= n < |t.deprecated| ==> t.deprecated[n].id < |t.options|
    decreases |args| - i
  {
    if i == |args| then []
    else if !IsDashed(args[i]) then [args[i]] + Words(t, args, i + 1)
    else
      var r := ReadOption(t, args, i);
      if r.Unread? then [] else Words(t, args, r.i)
  }

  predicate Of(m: (Name, Option<string>), id: nat, k: nat) {
    m.0.id == id && m.0.keyIdx == k
  }

  // The texts given to an option at a key
  function TextsFor(ms: seq<(Name, Option<string>)>, id: nat, k: nat): seq<string> {
    if ms == [] then []
    else (if Of(ms[0], id, k) && ms[0].1.Some? then [ms[0].1.value] else []) + TextsFor(ms[1..], id, k)
  }

  // What a value owes its option
  predicate Clean(t: Tables, id: nat, v: ParseValue) {
    && id < |t.options|
    && var rule := t.options[id];
       && v.found && v.source == FromParam && !rule.secure && !(v.negate && v.reset)
       && (v.negate ==> !rule.boolLike && (rule.negate || rule.kind == Boolean)) && (v.reset ==> rule.reset)
       && (rule.kind != Boolean && !v.negate && !v.reset ==> |v.values| > 0) && (|v.values| > 1 ==> rule.multi)
  }

  // What was found for an option at a key before some arguments, and what was after them
  ghost predicate Grown(before: map<(nat, nat), ParseValue>, after: map<(nat, nat), ParseValue>,
                        ms: seq<(Name, Option<string>)>, id: nat, k: nat)
  {
    && ((id, k) in after <==> (id, k) in before || exists m :: m in ms && Of(m, id, k))
    && ((id, k) in after ==>
          && after[(id, k)].values
             == (if (id, k) in before then before[(id, k)].values else []) + TextsFor(ms, id, k)
          && (forall m :: m in ms && Of(m, id, k) ==>
                m.0.negate == after[(id, k)].negate && m.0.reset == after[(id, k)].reset)
          && ((id, k) in before ==>
                before[(id, k)].negate == after[(id, k)].negate && before[(id, k)].reset == after[(id, k)].reset))
  }

  // One option more
  lemma OneGrown(t: Tables, line: Line, n: Name, arg: Option<string>, v: ParseValue, id: nat, k: nat)
    requires n.id < |t.options| && Merge(t, line, n, arg) == Merged(v) && Fair(t, n, arg)
    requires (id, k) in line.found ==> Clean(t, id, line.found[(id, k)])
    ensures var after := line.found[(n.id, n.keyIdx) := v];
            Grown(line.found, after, [(n, arg)], id, k) && ((id, k) in after ==> Clean(t, id, after[(id, k)]))
  {
    var ms := [(n, arg)];
    assert ms[1..] == [] && TextsFor([], id, k) == [];
    assert ms[0] in ms && forall m :: m in ms ==> m == (n, arg);
    if (id, k) in line.found {
      var values := line.found[(id, k)].values;
      assert values + [] == values;
    }
    assert forall x: seq<string> :: [] + x == x && x + [] == x;
  }

  lemma {:induction false} TextsJoin(a: seq<(Name, Option<string>)>, b: seq<(Name, Option<string>)>, id: nat, k: nat)
    ensures TextsFor(a + b, id, k) == TextsFor(a, id, k) + TextsFor(b, id, k)
    decreases |a|
  {
    if a == [] {
      assert a + b == b;
    } else {
      assert (a + b)[1..] == a[1..] + b;
      TextsJoin(a[1..], b, id, k);
    }
  }

  lemma {:induction false} NoTexts(ms: seq<(Name, Option<string>)>, id: nat, k: nat)
    requires forall m :: m in ms ==> !Of(m, id, k)
    ensures TextsFor(ms, id, k) == []
    decreases |ms|
  {
    if ms != [] {
      assert ms[0] in ms;
      NoTexts(ms[1..], id, k);
    }
  }

  lemma GrownJoin(x: map<(nat, nat), ParseValue>, y: map<(nat, nat), ParseValue>, z: map<(nat, nat), ParseValue>,
                  a: seq<(Name, Option<string>)>, b: seq<(Name, Option<string>)>, id: nat, k: nat)
    requires Grown(x, y, a, id, k) && Grown(y, z, b, id, k)
    ensures Grown(x, z, a + b, id, k)
  {
    hide Of, TextsFor;
    TextsJoin(a, b, id, k);
    assert forall m :: m in a + b <==> m in a || m in b;
    if (id, k) in z {
      var first := if (id, k) in x then x[(id, k)].values else [];
      assert (first + TextsFor(a, id, k)) + TextsFor(b, id, k) == first + (TextsFor(a, id, k) + TextsFor(b, id, k));
      if (id, k) !in y {
        NoTexts(a, id, k);
      }
    }
  }

  // When a command line is taken, every option named in it was found with exactly the texts given to it, in order, and
  // is negated or reset as it was each time; it is no secret and meets the rules of its option
  lemma {:induction false} ArgsGrow(t: Tables, line: Line, args: seq<string>, i: nat, id: nat, k: nat)
    requires i <= |args| && forall n :: 0 <= n < |t.deprecated| ==> t.deprecated[n].id < |t.options|
    requires (id, k) in line.found ==> Clean(t, id, line.found[(id, k)])
    requires ParseFrom(t, line, args, i).Next?
    ensures
      var after := ParseFrom(t, line, args, i).line.found;
      Grown(line.found, after, Mentions(t, args, i), id, k) && ((id, k) in after ==> Clean(t, id, after[(id, k)]))
    decreases |args| - i
  {
    hide ReadOption, Merge, Clean, ReadCommand, Grown, Of;
    if i == |args| {
      NothingGrown(line.found, id, k);
    } else if IsDashed(args[i]) {
      var r := ReadOption(t, args, i);
      ReadFair(t, args, i);
      var v := Merge(t, line, r.name, r.arg).value;
      OneGrown(t, line, r.name, r.arg, v, id, k);
      var next := line.(found := line.found[(r.name.id, r.name.keyIdx) := v]);
      ArgsGrow(t, next, args, r.i, id, k);
      GrownJoin(line.found, next.found, ParseFrom(t, next, args, r.i).line.found, [(r.name, r.arg)],
                Mentions(t, args, r.i), id, k);
    } else {
      var step := ReadCommand(t, line, args[i], i);
      CommandKeeps(t, line, args[i], i);
      ArgsGrow(t, step.line, args, i + 1, id, k);
    }
  }

  lemma NothingGrown(found: map<(nat, nat), ParseValue>, id: nat, k: nat)
    ensures Grown(found, found, [], id, k)
  {
    assert forall x: seq<string> :: x + [] == x;
  }

  lemma CommandKeeps(t: Tables, line: Line, arg: string, i: nat)
    ensures
      var step := ReadCommand(t, line, arg, i);
      && (step.Next? ==> step.line.found == line.found && step.i == i + 1)
      && var bare := ReadCommand(t, line.(found := map[]), arg, 0);
         && bare.Next? == step.Next? && (step.Next? ==> bare.line == step.line.(found := map[]))
         && (step.Failed? ==> bare == step)
  {
    hide CommandFrom, Find, RoleOf;
  }

  // ---- the command

  // The words of a command line alone
  function CommandOf(t: Tables, line: Line, words: seq<string>): Step
    decreases |words|
  {
    if words == [] then Next(line, 0)
    else
      var step := ReadCommand(t, line, words[0], 0);
      if step.Next? then CommandOf(t, step.line, words[1..]) else step
  }

  // The options do not matter for the command
  lemma {:induction false} ArgsCommand(t: Tables, line: Line, args: seq<string>, i: nat)
    requires i <= |args| && forall n :: 0 <= n < |t.deprecated| ==> t.deprecated[n].id < |t.options|
    requires ParseFrom(t, line, args, i).Next?
    ensures
      var command := CommandOf(t, line.(found := map[]), Words(t, args, i));
      command.Next? && command.line == ParseFrom(t, line, args, i).line.(found := map[])
    decreases |args| - i
  {
    hide ReadOption, Merge, ReadCommand;
    if i < |args| {
      if IsDashed(args[i]) {
        var r := ReadOption(t, args, i);
        var v := Merge(t, line, r.name, r.arg).value;
        ArgsCommand(t, line.(found := line.found[(r.name.id, r.name.keyIdx) := v]), args, r.i);
      } else {
        CommandKeeps(t, line, args[i], i);
        ArgsCommand(t, ReadCommand(t, line, args[i], i).line, args, i + 1);
      }
    }
  }

  // The text of a command without its role
  function Bared(word: string): string {
    word[..Find(word, ':', 0)]
  }

  // The word names a command: the first one that begins with it
  predicate Names(t: Tables, word: string, command: nat) {
    && command < |t.commands| && StartsWith(t.commands[command].name, Bared(word))
    && forall j: nat :: j < command ==> !StartsWith(t.commands[j].name, Bared(word))
  }

  // The text after the colon is that of the role, and without a colon it is the main one
  predicate HasRole(word: string, role: Role) {
    var colon := Find(word, ':', 0);
    match role
    case Main => colon == |word|
    case Async => colon < |word| && word[colon + 1..] == "async"
    case Local => colon < |word| && word[colon + 1..] == "local"
    case Remote => colon < |word| && word[colon + 1..] == "remote"
  }

  // A word names a command and a role it has, and help is only there for the main role
  predicate Runs(t: Tables, word: string, command: nat, role: Role, help: bool) {
    Names(t, word, command) && HasRole(word, role) && role in t.commands[command].roles && (help ==> role == Main)
  }

  // The line that the words make: nothing, a command with its parameters, or help, perhaps on a command
  ghost predicate Made(t: Tables, words: seq<string>, line: Line) {
    && line.found == map[]
    && if words == [] then line == Line(map[], t.help, Main, false, false, false, [])
       else
         && line.helpSet == Names(t, words[0], t.help)
         && var rest := if line.helpSet then words[1..] else words;
            if rest == [] then line == Line(map[], t.help, Main, false, true, false, [])
            else
              && line.commandSet && line.help == line.helpSet && line.params == rest[1..]
              && Runs(t, rest[0], line.command, line.role, line.help)
  }

  lemma {:induction false} ParamsKept(t: Tables, line: Line, words: seq<string>)
    requires line.commandSet
    ensures CommandOf(t, line, words) == Next(line.(params := line.params + words), 0)
    decreases |words|
  {
    if words == [] {
      assert line.params + [] == line.params;
    } else {
      ParamsKept(t, line.(params := line.params + [words[0]]), words[1..]);
      assert line.params + [words[0]] + words[1..] == line.params + words;
    }
  }

  lemma {:induction false} CommandFromIs(commands: seq<CommandRule>, text: string, i: nat, c: nat)
    requires i <= |commands|
    ensures CommandFrom(commands, text, i) == Some(c) <==>
            i <= c < |commands| && StartsWith(commands[c].name, text)
            && forall j: nat :: i <= j < c ==> !StartsWith(commands[j].name, text)
    decreases |commands| - i
  {
    hide StartsWith;
    if i < |commands| && !StartsWith(commands[i].name, text) {
      CommandFromIs(commands, text, i + 1, c);
    }
  }

  lemma RoleIs(word: string, role: Role)
    ensures
      var colon := Find(word, ':', 0);
      (if colon == |word| then Some(Main) else RoleOf(word[colon + 1..])) == Some(role) <==> HasRole(word, role)
  {
    hide Find, RoleOf;
    var colon := Find(word, ':', 0);
    if colon < |word| {
      RoleOfIs(word[colon + 1..], role);
    }
  }

  lemma RoleOfIs(text: string, role: Role)
    ensures RoleOf(text) == Some(role) <==>
            match role case Main => false case Async => text == "async" case Local => text == "local"
                       case Remote => text == "remote"
  {
    assert "async"[0] == 'a' && "local"[0] == 'l' && "remote"[0] == 'r';
  }

  lemma NamesIs(t: Tables, word: string, command: nat)
    ensures CommandFrom(t.commands, Bared(word), 0) == Some(command) <==> Names(t, word, command)
  {
    hide Find;
    CommandFromIs(t.commands, Bared(word), 0, command);
  }

  // One word while no command is set
  lemma WordRead(t: Tables, line: Line, word: string)
    requires !line.commandSet
    ensures
      match ReadCommand(t, line, word, 0)
      case Next(next, i) =>
        if Names(t, word, t.help) && !line.helpSet then next == line.(command := t.help, helpSet := true)
        else
          && Runs(t, word, next.command, next.role, line.helpSet)
          && next == line.(command := next.command, role := next.role, commandSet := true, help := line.helpSet)
      case Failed(_) =>
        && !(Names(t, word, t.help) && !line.helpSet)
        && forall command, role :: !Runs(t, word, command, role, line.helpSet)
  {
    hide CommandFrom, Find, RoleOf, HasRole, Names;
    forall command: nat
      ensures CommandFrom(t.commands, Bared(word), 0) == Some(command) <==> Names(t, word, command)
    {
      NamesIs(t, word, command);
    }
    forall role
      ensures
        var colon := Find(word, ':', 0);
        (if colon == |word| then Some(Main) else RoleOf(word[colon + 1..])) == Some(role) <==> HasRole(word, role)
    {
      RoleIs(word, role);
    }
  }

  lemma RunsOnce(t: Tables, word: string, command: nat, role: Role, command': nat, role': Role, help: bool)
    requires Runs(t, word, command, role, help) && Runs(t, word, command', role', help)
    ensures command == command' && role == role'
  {
    hide StartsWith, Find;
    RoleIs(word, role);
    RoleIs(word, role');
  }

  lemma RestRead(t: Tables, line: Line, words: seq<string>, line': Line)
    requires !line.commandSet && words != [] && (Names(t, words[0], t.help) ==> line.helpSet)
    ensures
      CommandOf(t, line, words) == Next(line', 0) <==>
      && line' == line.(command := line'.command, role := line'.role, commandSet := true, help := line.helpSet,
                        params := line.params + words[1..])
      && Runs(t, words[0], line'.command, line'.role, line.helpSet)
  {
    hide ReadCommand, Names, HasRole, Runs;
    WordRead(t, line, words[0]);
    var step := ReadCommand(t, line, words[0], 0);
    if step.Next? {
      ParamsKept(t, step.line, words[1..]);
      if Runs(t, words[0], line'.command, line'.role, line.helpSet) {
        RunsOnce(t, words[0], line'.command, line'.role, step.line.command, step.line.role, line.helpSet);
      }
    }
  }

  // The words of a command line are taken exactly when they make a line, and then give it
  lemma CommandExactly(t: Tables, words: seq<string>, line: Line)
    ensures CommandOf(t, StartLine(t), words) == Next(line, 0) <==> Made(t, words, line)
  {
    hide ReadCommand, Names, HasRole, Runs;
    if words != [] {
      WordRead(t, StartLine(t), words[0]);
      if Names(t, words[0], t.help) {
        var helped := StartLine(t).(command := t.help, helpSet := true);
        if |words| > 1 {
          RestRead(t, helped, words[1..], line);
          assert [] + words[1..][1..] == words[1..][1..];
        } else {
          assert words[1..] == [];
        }
      } else {
        RestRead(t, StartLine(t), words, line);
        assert [] + words[1..] == words[1..];
      }
    }
  }

  // All of phase 1: what was found is what the options named were given, and the command is what the other words make
  lemma LineExactly(t: Tables, args: seq<string>, line: Line)
    requires forall n :: 0 <= n < |t.deprecated| ==> t.deprecated[n].id < |t.options|
    requires ParseFrom(t, StartLine(t), args, 0) == Next(line, |args|)
    ensures forall id: nat, k: nat :: Grown(map[], line.found, Mentions(t, args, 0), id, k)
    ensures forall id: nat, k: nat :: (id, k) in line.found ==> Clean(t, id, line.found[(id, k)])
    ensures Made(t, Words(t, args, 0), line.(found := map[]))
  {
    hide Grown, Clean, Made, Mentions, Words, CommandOf, ParseFrom;
    forall id: nat, k: nat
      ensures Grown(map[], line.found, Mentions(t, args, 0), id, k)
      ensures (id, k) in line.found ==> Clean(t, id, line.found[(id, k)])
    {
      ArgsGrow(t, StartLine(t), args, 0, id, k);
    }
    ArgsCommand(t, StartLine(t), args, 0);
    CommandEnd(t, StartLine(t), Words(t, args, 0));
    CommandExactly(t, Words(t, args, 0), line.(found := map[]));
  }

  lemma {:induction false} CommandEnd(t: Tables, line: Line, words: seq<string>)
    ensures CommandOf(t, line, words).Next? ==> CommandOf(t, line, words).i == 0
    decreases |words|
  {
    hide ReadCommand;
    if words != [] && ReadCommand(t, line, words[0], 0).Next? {
      CommandEnd(t, ReadCommand(t, line, words[0], 0).line, words[1..]);
    }
  }
}
