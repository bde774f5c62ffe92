// The command line printed for a child process is read back by phase 1 of the child as what was printed.
module ExecProof {
  import opened Decimals
  import opened Options
  import opened ParseRules
  import opened ParseNames
  import opened ParseIndex
  import opened ParseArgs
  import opened ParseArgLaws
  import opened ParseCursor
  import opened ParseResolve
  import opened ParseResolveLaws
  import opened Exec
  import opened Strings

  // ---- the arguments of one value

  function PrefixOf(v: OptionValue): Prefix {
    if Negated(v) then Negate else if v.source != FromDefault && v.value != NoValue then Plain else Reset
  }

  // What a printed value needs of its option and name
  predicate Fit(t: Tables, id: nat, k: nat, v: OptionValue)
    requires WellFormed(t) && id < |t.options|
  {
    Printable(t.options[id], v) && !t.options[id].secure && (Printed(v) ==> NameFits(t, id, k, PrefixOf(v)))
  }

  predicate Bare(v: OptionValue) {
    Printed(v) && (PrefixOf(v) != Plain || v.value.BoolValue?)
  }

  lemma BareArgs(name: string, v: OptionValue)
    requires Bare(v)
    ensures ArgsOf(name, v) == ["--" + (PrefixText(PrefixOf(v)) + name)]
    ensures ChildValue(v) == ParseValue(true, PrefixOf(v) == Negate, PrefixOf(v) == Reset, FromParam, [])
  {
    var p := PrefixOf(v);
    assert "--" + (PrefixText(p) + name) == "--" + PrefixText(p) + name;
    assert "--" + "no-" == "--no-" && "--" + "reset-" == "--reset-" && "--" + "" == "--";
  }

  lemma TextArgs(name: string, v: OptionValue)
    requires Printed(v) && !Bare(v)
    ensures ArgsOf(name, v) == WithTexts(name, Texts(v))
    ensures ChildValue(v) == ParseValue(true, false, false, FromParam, Texts(v))
  {
  }

  lemma NoArgs(name: string, v: OptionValue)
    requires !Printed(v)
    ensures ArgsOf(name, v) == []
  {
  }

  function AddFound(line: Line, id: nat, k: nat, v: ParseValue): Line {
    line.(found := line.found[(id, k) := v])
  }

  lemma StartsWithDash(s: string, rest: string)
    requires s == "--" + rest
    ensures |s| >= 2 && s[0] == '-' && s[1] == '-'
  {
  }

  // A name of an option that takes texts
  ghost predicate Takes(t: Tables, id: nat, k: nat, name: string, many: bool) {
    && WellFormed(t) && id < |t.options| && NameFits(t, id, k, Plain) && name == KeyIdxName(t, id, k)
    && t.options[id].kind != Boolean && !t.options[id].secure && (many ==> t.options[id].multi)
  }

  // The state of the line when the first texts of a value have been read
  ghost predicate Partly(line: Line, id: nat, k: nat, texts: seq<string>) {
    if texts == [] then (id, k) !in line.found
    else (id, k) in line.found && line.found[(id, k)] == ParseValue(true, false, false, FromParam, texts)
  }

  // One more text
  lemma TextParsed(t: Tables, line: Line, args: seq<string>, i: nat, id: nat, k: nat, name: string,
                   texts: seq<string>, text: string)
    requires Takes(t, id, k, name, texts != []) && Partly(line, id, k, texts)
    requires i < |args| && args[i] == "--" + name + "=" + text
    ensures ParseArg(t, line, args, i)
              == Next(AddFound(line, id, k, ParseValue(true, false, false, FromParam, texts + [text])), i + 1)
  {
    hide KeyIdxName, ReadOption;
    var rest := name + "=" + text;
    assert args[i] == "--" + rest;
    StartsWithDash(args[i], rest);
    ReadText(t, args, i, id, k, text);
    assert [] + [text] == [text];
    assert Merge(t, line, NameFor(t, id, k, Plain), Some(text))
        == Merged(ParseValue(true, false, false, FromParam, texts + [text]));
  }

  lemma TakesMany(t: Tables, id: nat, k: nat, name: string, many: bool)
    requires Takes(t, id, k, name, many)
    ensures Takes(t, id, k, name, false)
    ensures forall n :: 0 <= n < |t.deprecated| ==> t.deprecated[n].id < |t.options|
  {
  }

  // The texts from the j-th on are added to those before
  lemma {:induction false} TextsParsed(
    t: Tables, line: Line, args: seq<string>, i: nat, id: nat, k: nat, name: string, texts: seq<string>, j: nat)
    requires Takes(t, id, k, name, |texts| > 1) && 0 < |texts|
    requires j <= |texts| && i + |texts| - j <= |args|
    requires args[i..i + |texts| - j] == WithTexts(name, texts)[j..]
    requires Partly(line, id, k, texts[..j])
    requires forall n :: 0 <= n < |t.deprecated| ==> t.deprecated[n].id < |t.options|
    ensures ParseFrom(t, line, args, i)
         == ParseFrom(t, AddFound(line, id, k, ParseValue(true, false, false, FromParam, texts)), args, i + |texts| - j)
    decreases |texts| - j
  {
    hide Takes, ParseArg;
    var all := ParseValue(true, false, false, FromParam, texts);
    if j == |texts| {
      assert texts[..j] == texts;
      assert AddFound(line, id, k, all).found == line.found;
    } else {
      assert args[i] == args[i..i + |texts| - j][0] == WithTexts(name, texts)[j];
      assert args[i + 1..i + |texts| - j] == args[i..i + |texts| - j][1..];
      TakesMany(t, id, k, name, |texts| > 1);
      TextParsed(t, line, args, i, id, k, name, texts[..j], texts[j]);
      assert texts[..j + 1] == texts[..j] + [texts[j]];
      var next := AddFound(line, id, k, ParseValue(true, false, false, FromParam, texts[..j + 1]));
      TextsParsed(t, next, args, i + 1, id, k, name, texts, j + 1);
      assert AddFound(next, id, k, all).found == AddFound(line, id, k, all).found;
    }
  }

  // A value without texts
  lemma BareParsed(t: Tables, line: Line, args: seq<string>, i: nat, id: nat, k: nat, v: OptionValue)
    requires WellFormed(t) && id < |t.options| && Fit(t, id, k, v) && (id, k) !in line.found && Bare(v)
    requires i < |args| && args[i] == "--" + (PrefixText(PrefixOf(v)) + KeyIdxName(t, id, k))
    ensures ParseArg(t, line, args, i) == Next(AddFound(line, id, k, ChildValue(v)), i + 1)
  {
    hide KeyIdxName, ReadOption, ArgsOf, ChildValue, Texts, GroupNamed, PlainNamed;
    var name, p := KeyIdxName(t, id, k), PrefixOf(v);
    BareArgs(name, v);
    StartsWithDash(args[i], PrefixText(p) + name);
    ReadBare(t, args, i, id, k, p);
    assert Merge(t, line, NameFor(t, id, k, p), None) == Merged(ChildValue(v));
  }

  // The arguments of one value, wherever they are in the command line, add that value
  lemma ValueParsed(t: Tables, line: Line, args: seq<string>, i: nat, id: nat, k: nat, v: OptionValue)
    requires WellFormed(t) && id < |t.options| && Fit(t, id, k, v) && (id, k) !in line.found
    requires i + |ArgsOf(KeyIdxName(t, id, k), v)| <= |args|
    requires args[i..i + |ArgsOf(KeyIdxName(t, id, k), v)|] == ArgsOf(KeyIdxName(t, id, k), v)
    ensures ParseFrom(t, line, args, i) ==
            ParseFrom(t, if Printed(v) then AddFound(line, id, k, ChildValue(v)) else line, args,
                      i + |ArgsOf(KeyIdxName(t, id, k), v)|)
  {
    hide KeyIdxName, ReadOption, ParseArg, ArgsOf, ChildValue, Texts, GroupNamed, PlainNamed;
    var name := KeyIdxName(t, id, k);
    var mine := ArgsOf(name, v);
    if Bare(v) {
      BareArgs(name, v);
      assert args[i] == args[i..i + |mine|][0];
      BareParsed(t, line, args, i, id, k, v);
    } else if Printed(v) {
      TextArgs(name, v);
      var texts := Texts(v);
      assert texts[..0] == [] && mine[0..] == mine;
      TextsParsed(t, line, args, i, id, k, name, texts, 0);
    } else {
      NoArgs(name, v);
    }
  }

  // ---- what is printed at all

  // The argument is one of those of an index of an option that the child may have, that is not secret, and that is not
  // the cipher type
  ghost predicate PrintedFor(c: Setup, id: nat, idx: nat, a: string)
    requires WellFormed(c.t) && Sized(c)
  {
    && id < |c.t.options| && id in c.values && c.child[id] && !c.t.options[id].secure && id != c.cipherType
    && idx < |c.values[id]| && a in ArgsOf(NameAt(c, id, idx), c.values[id][idx])
  }

  lemma {:induction false} IndexPrinted(c: Setup, id: nat, idx: nat, a: string)
    requires WellFormed(c.t) && Sized(c) && id in c.values && idx <= |c.values[id]|
    ensures a in IndexArgs(c, id, idx) <==>
            exists i: nat :: idx <= i < |c.values[id]| && a in ArgsOf(NameAt(c, id, i), c.values[id][i])
    decreases |c.values[id]| - idx
  {
    hide WellFormed, ArgsOf, NameAt;
    if idx < |c.values[id]| {
      IndexPrinted(c, id, idx + 1, a);
    }
  }

  lemma OneOptionPrinted(c: Setup, id: nat, a: string)
    requires WellFormed(c.t) && Sized(c) && id < |c.t.options|
    ensures a in ArgsAt(c, id) <==> exists i: nat :: PrintedFor(c, id, i, a)
  {
    hide WellFormed, ArgsOf, NameAt, IndexArgs;
    if id in c.values {
      IndexPrinted(c, id, 0, a);
    }
    if a in ArgsAt(c, id) {
      var i: nat :| i < |c.values[id]| && a in ArgsOf(NameAt(c, id, i), c.values[id][i]);
      assert PrintedFor(c, id, i, a);
    }
  }

  lemma {:induction false} OptionPrinted(c: Setup, id: nat, a: string)
    requires WellFormed(c.t) && Sized(c) && id <= |c.t.options|
    ensures a in OptionArgs(c, id) <==> exists o: nat, i: nat :: id <= o && PrintedFor(c, o, i, a)
    decreases |c.t.options| - id
  {
    hide WellFormed, ArgsAt, ArgsOf, NameAt;
    if id < |c.t.options| {
      OptionPrinted(c, id + 1, a);
      OneOptionPrinted(c, id, a);
    }
  }

  // Exactly the arguments of these options are printed, whatever their values
  lemma PrintedExactly(c: Setup, a: string)
    requires WellFormed(c.t) && Sized(c)
    ensures a in OptionArgs(c, 0) <==> exists id: nat, idx: nat :: PrintedFor(c, id, idx, a)
  {
    hide OptionArgs, PrintedFor;
    OptionPrinted(c, 0, a);
  }

  lemma BareNoEqual(t: Tables, id: nat, k: nat, v: OptionValue, a: string)
    requires WellFormed(t) && id < |t.options| && Bare(v) && a in ArgsOf(KeyIdxName(t, id, k), v)
    ensures '=' !in a
  {
    hide KeyIdxName, GroupNamed, PlainNamed;
    var name := KeyIdxName(t, id, k);
    BareArgs(name, v);
    NameHasNoEqual(t, id, k);
    PrefixHasNoEqual(PrefixOf(v));
    assert a == "--" + (PrefixText(PrefixOf(v)) + name);
  }

  // Two arguments with texts have the same name
  lemma SameText(name: string, text: string, other: string, text': string)
    requires '=' !in name && '=' !in other && "--" + name + "=" + text == "--" + other + "=" + text'
    ensures name == other
  {
    hide Find;
    var a := "--" + name + "=" + text;
    SplitAtEqual(name, text);
    SplitAtEqual(other, text');
    assert a[2..] == name + "=" + text && a[2..] == other + "=" + text';
  }

  // An argument tells the option it is of
  lemma ArgTells(t: Tables, id: nat, k: nat, id': nat, k': nat, v: OptionValue, text: string)
    requires WellFormed(t) && id < |t.options| && id' < |t.options|
    requires "--" + KeyIdxName(t, id, k) + "=" + text in ArgsOf(KeyIdxName(t, id', k'), v)
    ensures id == id'
  {
    hide KeyIdxName, GroupNamed, PlainNamed, Find, Texts;
    var name, other := KeyIdxName(t, id, k), KeyIdxName(t, id', k');
    var a := "--" + name + "=" + text;
    assert a[2 + |name|] == '=';
    if Bare(v) {
      BareNoEqual(t, id', k', v, a);
    } else if Printed(v) {
      TextArgs(other, v);
      var i: nat :| i < |Texts(v)| && a == "--" + other + "=" + Texts(v)[i];
      NameHasNoEqual(t, id, k);
      NameHasNoEqual(t, id', k');
      SameText(name, text, other, Texts(v)[i]);
      NameTells(t, id, k, id', k');
    } else {
      NoArgs(other, v);
    }
  }

  // So no text of a secret option is ever printed
  lemma SecretNotPrinted(c: Setup, id: nat, k: nat, text: string)
    requires WellFormed(c.t) && Sized(c) && id < |c.t.options| && c.t.options[id].secure
    ensures "--" + KeyIdxName(c.t, id, k) + "=" + text !in OptionArgs(c, 0)
  {
    hide GroupNamed, PlainNamed, OptionArgs, KeyIdxName, ArgsOf, Sized;
    var a := "--" + KeyIdxName(c.t, id, k) + "=" + text;
    PrintedExactly(c, a);
    if o: nat, i: nat :| PrintedFor(c, o, i, a) {
      ArgTells(c.t, id, k, o, KeyAt(c, o, i), c.values[o][i], text);
    }
  }

  // ---- the whole command line

  // The keys of a group differ, and every value that is passed can be printed
  ghost predicate Ready(c: Setup) {
    && WellFormed(c.t) && Sized(c)
    && (forall g, i, j :: 0 <= g < |c.maps| && 0 <= i < j < |c.maps[g]| ==> c.maps[g][i] != c.maps[g][j])
    && (forall id, idx :: 0 <= id < |c.t.options| && Passed(c, id) && 0 <= idx < |c.values[id]| ==>
          Fit(c.t, id, KeyAt(c, id, idx), c.values[id][idx]))
  }

  // An index that is printed
  predicate Prints(c: Setup, id: nat, idx: nat)
    requires Sized(c)
  {
    id < |c.t.options| && Passed(c, id) && idx < |c.values[id]| && Printed(c.values[id][idx])
  }

  predicate Before(id: nat, idx: nat, id': nat, idx': nat) {
    id < id' || (id == id' && idx < idx')
  }

  // The child has found the values printed before an index of an option, and nothing else
  ghost predicate FoundIs(c: Setup, found: map<(nat, nat), ParseValue>, id: nat, idx: nat)
    requires Sized(c)
  {
    && (forall o: nat, i: nat :: Prints(c, o, i) && Before(o, i, id, idx) ==>
          (o, KeyAt(c, o, i)) in found && found[(o, KeyAt(c, o, i))] == ChildValue(c.values[o][i]))
    && (forall o: nat, k: nat :: (o, k) in found ==>
          exists i: nat :: Prints(c, o, i) && Before(o, i, id, idx) && KeyAt(c, o, i) == k)
  }

  lemma KeyUnique(c: Setup, id: nat, i: nat, j: nat)
    requires Ready(c) && id in c.values && i < |c.values[id]| && j < |c.values[id]|
    requires KeyAt(c, id, i) == KeyAt(c, id, j)
    ensures i == j
  {
    hide WellFormed, Fit;
  }

  lemma KeyIsNew(c: Setup, found: map<(nat, nat), ParseValue>, id: nat, idx: nat)
    requires Ready(c) && FoundIs(c, found, id, idx) && id in c.values && idx < |c.values[id]|
    ensures (id, KeyAt(c, id, idx)) !in found
  {
    hide WellFormed, Fit, Printed;
    var k := KeyAt(c, id, idx);
    if (id, k) in found {
      var i: nat :| Prints(c, id, i) && Before(id, i, id, idx) && KeyAt(c, id, i) == k;
      KeyUnique(c, id, i, idx);
    }
  }

  lemma FoundMore(c: Setup, found: map<(nat, nat), ParseValue>, id: nat, idx: nat)
    requires Ready(c) && FoundIs(c, found, id, idx) && Prints(c, id, idx)
    ensures FoundIs(c, found[(id, KeyAt(c, id, idx)) := ChildValue(c.values[id][idx])], id, idx + 1)
  {
    hide WellFormed, Fit, Printed, ChildValue;
    var k := KeyAt(c, id, idx);
    var found' := found[(id, k) := ChildValue(c.values[id][idx])];
    KeyIsNew(c, found, id, idx);
    forall o: nat, i: nat | Prints(c, o, i) && Before(o, i, id, idx + 1)
      ensures (o, KeyAt(c, o, i)) in found' && found'[(o, KeyAt(c, o, i))] == ChildValue(c.values[o][i])
    {
      if !Before(o, i, id, idx) {
        assert o == id && i == idx;
      }
    }
    forall o: nat, k': nat | (o, k') in found'
      ensures exists i: nat :: Prints(c, o, i) && Before(o, i, id, idx + 1) && KeyAt(c, o, i) == k'
    {
      if (o, k') == (id, k) {
        assert Prints(c, o, idx) && Before(o, idx, id, idx + 1);
      } else {
        var i: nat :| Prints(c, o, i) && Before(o, i, id, idx) && KeyAt(c, o, i) == k';
        assert Before(o, i, id, idx + 1);
      }
    }
  }

  // Nothing is printed between two places
  lemma FoundSame(c: Setup, found: map<(nat, nat), ParseValue>, id: nat, idx: nat, id': nat, idx': nat)
    requires Sized(c) && FoundIs(c, found, id, idx)
    requires forall o: nat, i: nat :: Prints(c, o, i) ==> (Before(o, i, id, idx) <==> Before(o, i, id', idx'))
    ensures FoundIs(c, found, id', idx')
  {
    hide Sized, Printed, ChildValue;
    forall o: nat, k: nat | (o, k) in found
      ensures exists i: nat :: Prints(c, o, i) && Before(o, i, id', idx') && KeyAt(c, o, i) == k
    {
      var i: nat :| Prints(c, o, i) && Before(o, i, id, idx) && KeyAt(c, o, i) == k;
      assert Before(o, i, id', idx');
    }
  }

  lemma {:induction false} IndexesParsed(c: Setup, line: Line, args: seq<string>, i: nat, id: nat, idx: nat)
    returns (line': Line)
    requires Ready(c) && id < |c.t.options| && Passed(c, id) && idx <= |c.values[id]|
    requires FoundIs(c, line.found, id, idx)
    requires i + |IndexArgs(c, id, idx)| <= |args| && args[i..i + |IndexArgs(c, id, idx)|] == IndexArgs(c, id, idx)
    ensures ParseFrom(c.t, line, args, i) == ParseFrom(c.t, line', args, i + |IndexArgs(c, id, idx)|)
    ensures FoundIs(c, line'.found, id, |c.values[id]|) && line' == line.(found := line'.found)
    decreases |c.values[id]| - idx
  {
    hide ArgsOf, KeyIdxName, ParseFrom, FoundIs, Fit, Printed, ChildValue;
    line' := line;
    if idx < |c.values[id]| {
      var k, v := KeyAt(c, id, idx), c.values[id][idx];
      var mine := ArgsOf(NameAt(c, id, idx), v);
      var rest := IndexArgs(c, id, idx + 1);
      assert IndexArgs(c, id, idx) == mine + rest;
      Slices(args, i, mine, rest);
      KeyIsNew(c, line.found, id, idx);
      ValueParsed(c.t, line, args, i, id, k, v);
      var next := line;
      if Printed(v) {
        FoundMore(c, line.found, id, idx);
        next := AddFound(line, id, k, ChildValue(v));
      } else {
        FoundSame(c, line.found, id, idx, id, idx + 1);
      }
      line' := IndexesParsed(c, next, args, i + |mine|, id, idx + 1);
    }
  }

  lemma Slices(args: seq<string>, i: nat, a: seq<string>, b: seq<string>)
    requires i + |a| + |b| <= |args| && args[i..i + |a| + |b|] == a + b
    ensures args[i..i + |a|] == a && args[i + |a|..i + |a| + |b|] == b
  {
    assert args[i..i + |a|] == args[i..i + |a| + |b|][..|a|];
    assert args[i + |a|..i + |a| + |b|] == args[i..i + |a| + |b|][|a|..];
  }

  lemma OptionParsed(c: Setup, line: Line, args: seq<string>, i: nat, id: nat) returns (line': Line)
    requires Ready(c) && id < |c.t.options| && FoundIs(c, line.found, id, 0)
    requires i + |ArgsAt(c, id)| <= |args| && args[i..i + |ArgsAt(c, id)|] == ArgsAt(c, id)
    ensures ParseFrom(c.t, line, args, i) == ParseFrom(c.t, line', args, i + |ArgsAt(c, id)|)
    ensures FoundIs(c, line'.found, id + 1, 0) && line' == line.(found := line'.found)
  {
    hide IndexArgs, ParseFrom, FoundIs, Printed;
    line' := line;
    if Passed(c, id) {
      line' := IndexesParsed(c, line, args, i, id, 0);
      FoundSame(c, line'.found, id, |c.values[id]|, id + 1, 0);
    } else {
      FoundSame(c, line.found, id, 0, id + 1, 0);
    }
  }

  lemma {:induction false} OptionsParsed(c: Setup, line: Line, args: seq<string>, i: nat, id: nat) returns (line': Line)
    requires Ready(c) && id <= |c.t.options| && FoundIs(c, line.found, id, 0)
    requires i + |OptionArgs(c, id)| <= |args| && args[i..i + |OptionArgs(c, id)|] == OptionArgs(c, id)
    ensures ParseFrom(c.t, line, args, i) == ParseFrom(c.t, line', args, i + |OptionArgs(c, id)|)
    ensures FoundIs(c, line'.found, |c.t.options|, 0) && line' == line.(found := line'.found)
    decreases |c.t.options| - id
  {
    hide ArgsAt, ParseFrom, FoundIs, Fit;
    line' := line;
    if id < |c.t.options| {
      Slices(args, i, ArgsAt(c, id), OptionArgs(c, id + 1));
      var next := OptionParsed(c, line, args, i, id);
      line' := OptionsParsed(c, next, args, i + |ArgsAt(c, id)|, id + 1);
    }
  }

  // ---- the command

  lemma {:induction false} CommandFound(t: Tables, command: nat, i: nat)
    requires WellFormed(t) && i <= command < |t.commands|
    ensures CommandFrom(t.commands, t.commands[command].name, i) == Some(command)
    decreases command - i
  {
    if i < command {
      CommandFound(t, command, i + 1);
    } else {
      var name := t.commands[command].name;
      assert name[..|name|] == name;
    }
  }

  lemma CommandSplit(t: Tables, command: nat, role: Role)
    requires WellFormed(t) && command < |t.commands|
    ensures var arg := CommandText(t, command, role); var name := t.commands[command].name;
            && |arg| > 0 && arg[0] != '-' && Find(arg, ':', 0) == |name| && arg[..|name|] == name
            && (role == Main <==> |arg| == |name|) && (role != Main ==> arg[|name| + 1..] == RoleText(role))
  {
    var name := t.commands[command].name;
    var arg := CommandText(t, command, role);
    assert CommandNamed(name);
    assert forall k :: 0 <= k < |name| ==> arg[k] == name[k] && name[k] in name;
    FindIs(arg, ':', 0, |name|);
  }

  lemma CommandParsed(t: Tables, line: Line, args: seq<string>, i: nat, command: nat, role: Role)
    requires WellFormed(t) && command < |t.commands| && command != t.help && role in t.commands[command].roles
    requires i + 1 == |args| && args[i] == CommandText(t, command, role)
    requires !line.commandSet && !line.helpSet
    ensures ParseFrom(t, line, args, i)
              == Next(line.(command := command, role := role, commandSet := true, help := false), i + 1)
  {
    hide CommandText, CommandFrom, Find;
    CommandSplit(t, command, role);
    CommandFound(t, command, 0);
    assert role != Main ==> RoleOf(RoleText(role)) == Some(role);
    assert ReadCommand(t, line, args[i], i)
        == Next(line.(command := command, role := role, commandSet := true, help := line.helpSet), i + 1);
  }

  // Phase 1 of the child finds every index that was printed, with the value it was printed from, and nothing else; and
  // it finds the command and the role it was started for
  lemma ExecRoundTrip(c: Setup, command: nat, role: Role) returns (line: Line)
    requires Ready(c) && command < |c.t.commands| && command != c.t.help && role in c.t.commands[command].roles
    ensures var args := OptionArgs(c, 0) + [CommandText(c.t, command, role)];
            ParseFrom(c.t, StartLine(c.t), args, 0) == Next(line, |args|)
    ensures line.command == command && line.role == role && line.commandSet && !line.help && line.params == []
    ensures forall id: nat, idx: nat :: Prints(c, id, idx) ==>
              (id, KeyAt(c, id, idx)) in line.found
                  && line.found[(id, KeyAt(c, id, idx))] == ChildValue(c.values[id][idx])
    ensures forall id: nat, k: nat :: (id, k) in line.found ==> exists idx: nat ::
              Prints(c, id, idx) && KeyAt(c, id, idx) == k
  {
    hide OptionArgs, Fit, Printed, ChildValue;
    var args := OptionArgs(c, 0) + [CommandText(c.t, command, role)];
    var n := |OptionArgs(c, 0)|;
    assert args[0..0 + n] == OptionArgs(c, 0);
    assert FoundIs(c, map[], 0, 0);
    var line' := OptionsParsed(c, StartLine(c.t), args, 0, 0);
    CommandParsed(c.t, line', args, n, command, role);
    line := line'.(command := command, role := role, commandSet := true, help := false);
  }

  // ---- the values themselves

  lemma {:induction false} HashedNotEmpty(pairs: seq<(string, string)>, values: seq<string>)
    requires pairs != [] || values != []
    ensures Hashed(pairs, values).Good? ==>
              Hashed(pairs, values).value.HashValue? && Hashed(pairs, values).value.pairs != []
    decreases |values|
  {
    if values != [] && Pair(values[0]).Some? {
      HashedNotEmpty(Put(pairs, Pair(values[0]).value), values[1..]);
    }
  }

  lemma {:induction false} PutLast(pairs: seq<(string, string)>, p: (string, string))
    requires forall i :: 0 <= i < |pairs| ==> pairs[i].0 != p.0
    ensures Put(pairs, p) == pairs + [p]
    decreases |pairs|
  {
    if pairs != [] {
      PutLast(pairs[1..], p);
      assert pairs == [pairs[0]] + pairs[1..];
    }
  }

  lemma {:induction false} JoinedHashes(pairs: seq<(string, string)>, i: nat)
    requires Keyed(pairs) && i <= |pairs|
    ensures Hashed(pairs[..i], Joined(pairs)[i..]) == Good(HashValue(pairs))
    decreases |pairs| - i
  {
    if i == |pairs| {
      assert pairs[..i] == pairs;
    } else {
      SplitAtEqual(pairs[i].0, pairs[i].1);
      assert Pair(Joined(pairs)[i]) == Some(pairs[i]);
      PutLast(pairs[..i], pairs[i]);
      assert pairs[..i] + [pairs[i]] == pairs[..i + 1];
      assert Joined(pairs)[i..][1..] == Joined(pairs)[i + 1..];
      JoinedHashes(pairs, i + 1);
    }
  }

  // A hash splits at the first "=" of each text, so printing and splitting it again gives the same pairs in order
  lemma HashRoundTrip(values: seq<string>, pairs: seq<(string, string)>)
    requires Hashed([], values) == Good(HashValue(pairs))
    ensures Hashed([], Joined(pairs)) == Good(HashValue(pairs))
  {
    HashedKeyed([], values);
    JoinedHashes(pairs, 0);
    assert pairs[..0] == [] && Joined(pairs)[0..] == Joined(pairs);
  }

  // The child converts what it finds to the value of the parent; a single value it converts as what the parent was
  // given
  lemma ChildConverts(env: Env, child: Env, id: nat, given: ParseValue, v: OptionValue)
    requires IsOption(env, id) && IsOption(child, id) && child.t == env.t
    requires IsSet(env, id, given) && given.source != FromDefault && (Kind(env, id) != Boolean ==> |given.values| > 0)
    requires Independent(env, id, given) == Ok(v)
    ensures var found := ChildValue(v);
            && (Kind(env, id) != Boolean ==> |found.values| > 0)
            && Convert(child, id, found) ==
               if Kind(env, id) in {Boolean, Hash, List} then Good(v.value) else Convert(child, id, given)
  {
    hide FindRule, AllowedAt, PathOf;
    var kind := Kind(env, id);
    if kind == Hash {
      HashedNotEmpty([], given.values);
      HashedKeyed([], given.values);
      HashRoundTrip(given.values, v.value.pairs);
    } else if kind !in {Boolean, List} {
      SingleIsPlain(env, id, given);
    }
  }

  lemma {:induction false} AllowedIs(values: seq<Allowed>, v: Value)
    ensures AllowedAt(values, v).Good? ==> AllowedAt(values, v).value == v
    decreases |values|
  {
    if values != [] {
      AllowedIs(values[1..], v);
    }
  }

  lemma SingleIsPlain(env: Env, id: nat, given: ParseValue)
    requires IsOption(env, id) && Kind(env, id) !in {Boolean, Hash, List} && |given.values| > 0
    ensures var c := Convert(env, id, given);
            c.Good? ==> !c.value.BoolValue? && !c.value.HashValue? && !c.value.ListValue? && c.value != NoValue
  {
    hide FindRule, AllowedAt;
    var single := Single(env, id, given.values[0]);
    if single.Good? {
      match FindRule(Groups(env, id), env.command, 3) {
        case Some(AllowList(values)) => AllowedIs(values, single.value);
        case _ =>
      }
    }
  }

  // What an index was given, as phases 1 to 3 leave it: found somewhere, and not both negated and reset
  predicate Given(env: Env, id: nat, given: ParseValue)
    requires IsOption(env, id)
  {
    && given.found && given.source != FromDefault && !(given.negate && given.reset)
    && (IsSet(env, id, given) && Kind(env, id) != Boolean ==> |given.values| > 0)
  }

  // A boolean that was negated although the option it depends on does not allow it
  predicate NegatedInVain(env: Env, id: nat, given: ParseValue, on: Option<OptionValue>)
    requires IsOption(env, id) && (DependOf(env, id).Some? ==> on.Some?)
  {
    Kind(env, id) == Boolean && given.negate && DependOf(env, id).Some? && !Meets(DependOf(env, id).value, on.value)
  }

  // What other options and the program see of a value
  predicate SameValue(v: OptionValue, w: OptionValue) {
    v.isSet == w.isSet && v.value == w.value
  }

  // The child accepts what the parent prints, and then has the value of the parent, exactly when it is not a boolean
  // negated in vain. The parent ignores such a negation in a file but passes it on, and on a command line it is an
  // error.
  lemma ChildAccepts(env: Env, id: nat, given: ParseValue, on: Option<OptionValue>, v: OptionValue)
    requires IsOption(env, id) && Given(env, id, given) && (DependOf(env, id).Some? ==> on.Some?)
    requires Evaluate(env, id, given, on) == Ok(v) && Printed(v)
    ensures IsSet(env, id, ChildValue(v)) && Kind(env, id) != Boolean ==> |ChildValue(v).values| > 0
    ensures Evaluate(env, id, ChildValue(v), on).Ok? <==> !NegatedInVain(env, id, given, on)
    ensures
      match Evaluate(env, id, ChildValue(v), on)
      case Ok(value) => SameValue(v, value)
      case Err(error) => error == DependInvalid
  {
    hide FindRule, Convert, Meets, BetaMissing;
    if IsSet(env, id, given) && v.source != FromDefault {
      ChildConverts(env, env, id, given, v);
    }
    if Kind(env, id) !in {Boolean, Hash, List} && IsSet(env, id, given) {
      SingleIsPlain(env, id, given);
    }
  }

  // Whatever was given is printed, also when it only resets the option, so that nothing the child may find elsewhere
  // takes its place; the one exception is a value that is ignored because of its dependency and is not negated
  lemma GivenIsPrinted(env: Env, id: nat, given: ParseValue, on: Option<OptionValue>, v: OptionValue, name: string)
    requires IsOption(env, id) && Given(env, id, given) && (DependOf(env, id).Some? ==> on.Some?)
    requires Evaluate(env, id, given, on) == Ok(v) && Printable(env.t.options[id], v)
    ensures
      ArgsOf(name, v) == [] <==>
      && !given.negate && !given.reset
      && DependOf(env, id).Some? && !Meets(DependOf(env, id).value, on.value)
    ensures given.reset ==> ArgsOf(name, v) == ["--reset-" + name]
  {
    hide FindRule, Hashed, AllowedAt, PathOf, Meets, BetaMissing;
    if IsSet(env, id, given) && Kind(env, id) == Hash {
      HashedNotEmpty([], given.values);
    } else if IsSet(env, id, given) && Kind(env, id) !in {Boolean, List} {
      SingleIsPlain(env, id, given);
    }
  }

  // For a boolean negated in a file the dependency alone decides
  lemma NegatedWithoutDependency(env: Env, id: nat, given: ParseValue, on: OptionValue, v: OptionValue)
    requires IsOption(env, id) && Kind(env, id) == Boolean
    requires DependOf(env, id).Some? && !Meets(DependOf(env, id).value, on)
    requires given == ParseValue(true, true, false, FromConfig, [])
    requires Evaluate(env, id, given, Some(on)) == Ok(v)
    ensures Printed(v) && Evaluate(env, id, ChildValue(v), Some(on)) == Err(DependInvalid)
  {
    hide FindRule;
    ChildAccepts(env, id, given, Some(on), v);
  }
}
