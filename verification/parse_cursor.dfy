// config/parse.c: cfgParseOptionalRule, which reads the packed rules of an option forward only, remembering one type.
module ParseCursor {
  import opened Options
  import opened ParseRules

  // ---- what is looked up

  predicate Matches(g: RuleGroup, command: nat) {
    g.commands.None? || command in g.commands.value
  }

  // The rules of the first group that is for the command
  function FirstMatch(groups: seq<RuleGroup>, command: nat): (r: Option<seq<Rule>>)
    ensures r.Some? ==> exists g :: g in groups && Matches(g, command) && r.value == g.rules
  {
    if groups == [] then None
    else if Matches(groups[0], command) then assert groups[0] in groups; Some(groups[0].rules)
    else FirstMatch(groups[1..], command)
  }

  // The group is for all commands or names the command, and none before it is
  ghost predicate First(groups: seq<RuleGroup>, command: nat, i: nat) {
    && i < |groups| && (groups[i].commands.None? || command in groups[i].commands.value)
    && forall j: nat :: j < i ==> groups[j].commands.Some? && command !in groups[j].commands.value
  }

  lemma {:induction false} FirstMatchAt(groups: seq<RuleGroup>, command: nat, i: nat)
    requires First(groups, command, i)
    ensures FirstMatch(groups, command) == Some(groups[i].rules)
    decreases i
  {
    if i > 0 {
      assert groups[1..][i - 1] == groups[i];
      assert forall j: nat :: j < i - 1 ==> groups[1..][j] == groups[j + 1];
      FirstMatchAt(groups[1..], command, i - 1);
    }
  }

  lemma {:induction false} FirstExists(groups: seq<RuleGroup>, command: nat) returns (i: nat)
    requires FirstMatch(groups, command).Some?
    ensures First(groups, command, i)
    decreases |groups|
  {
    i := 0;
    if !Matches(groups[0], command) {
      var k := FirstExists(groups[1..], command);
      assert forall j: nat :: j < k ==> groups[1..][j] == groups[j + 1];
      i := k + 1;
    }
  }

  lemma {:induction false} NoneFor(groups: seq<RuleGroup>, command: nat)
    requires FirstMatch(groups, command) == None
    ensures forall i: nat :: i < |groups| ==> groups[i].commands.Some? && command !in groups[i].commands.value
    decreases |groups|
  {
    if groups != [] {
      NoneFor(groups[1..], command);
      assert forall i: nat :: 0 < i < |groups| ==> groups[i] == groups[1..][i - 1];
    }
  }

  // The rules are those of the first such group, and there are none exactly when there is no such group
  lemma FirstMatchIs(groups: seq<RuleGroup>, command: nat, rules: seq<Rule>)
    ensures FirstMatch(groups, command) == Some(rules) <==>
            exists i: nat :: First(groups, command, i) && groups[i].rules == rules
    ensures FirstMatch(groups, command) == None <==>
            forall i: nat :: i < |groups| ==> groups[i].commands.Some? && command !in groups[i].commands.value
  {
    if FirstMatch(groups, command).Some? {
      var i := FirstExists(groups, command);
      FirstMatchAt(groups, command, i);
    } else {
      NoneFor(groups, command);
    }
    if i: nat :| First(groups, command, i) && groups[i].rules == rules {
      FirstMatchAt(groups, command, i);
    }
  }

  function RuleOfType(rules: seq<Rule>, kind: nat): Option<Rule> {
    if rules == [] then None else if TypeOf(rules[0]) == kind then Some(rules[0]) else RuleOfType(rules[1..], kind)
  }

  // The rule of a type for a command, found without a cursor
  function FindRule(groups: seq<RuleGroup>, command: nat, kind: nat): Option<Rule> {
    var rules := FirstMatch(groups, command);
    if rules.None? then None else RuleOfType(rules.value, kind)
  }

  // ---- the cursor

  class RuleCursor {
    var pack: Option<seq<Rule>>  // what is left to read of the group, once there is one
    var typeNext: nat            // the type of the rule next in it, if already read
    var done: bool
    ghost var asked: nat         // the last type asked for

    constructor ()
      ensures pack == None && typeNext == 0 && !done && asked == 0
    {
      pack, typeNext, done, asked := None, 0, false, 0;
    }

    // Every type greater than the last one asked for can still be answered
    ghost predicate Valid(groups: seq<RuleGroup>, command: nat)
      reads this
    {
      && (forall g :: g in groups ==> AscendingRules(g))
      && (pack.None? && !done ==> typeNext == 0)
      && (done ==> forall k :: k > asked ==> FindRule(groups, command, k) == None)
      && (pack.Some? ==>
            && Ascending(pack.value)
            && (typeNext != 0 ==> |pack.value| > 0 && typeNext == TypeOf(pack.value[0]))
            && forall k :: k > asked ==> FindRule(groups, command, k) == RuleOfType(pack.value, k))
    }

    // The search for the group
    method FindGroup(groups: seq<RuleGroup>, command: nat)
      requires Valid(groups, command) && pack == None && !done && |groups| > 0
      modifies this
      ensures Valid(groups, command) && asked == old(asked)
      ensures done <==> FirstMatch(groups, command).None?
      ensures !done ==> pack.Some?
    {
      var i := 0;
      assert groups[0..] == groups;
      while i < |groups|
        invariant i <= |groups|
        invariant FirstMatch(groups[i..], command) == FirstMatch(groups, command)
        invariant Valid(groups, command) && pack == None && !done && asked == old(asked)
      {
        assert groups[i..][0] == groups[i] && groups[i..][1..] == groups[i + 1..];
        if Matches(groups[i], command) {
          assert groups[i] in groups;
          typeNext := TypeOf(groups[i].rules[0]);
          pack := Some(groups[i].rules);
          return;
        }
        i := i + 1;
      }
      done := true;
    }

    // cfgParseOptionalRule: the answer is that of a direct search, for types asked for in ascending order
    method OptionalRule(groups: seq<RuleGroup>, command: nat, kind: nat) returns (r: Option<Rule>)
      requires Valid(groups, command) && kind > asked
      modifies this
      ensures Valid(groups, command) && asked == kind
      ensures r == FindRule(groups, command, kind)
    {
      r := None;
      if !done && |groups| > 0 {
        if pack.None? {
          FindGroup(groups, command);
        }
        if !done {
          r := Search(groups, command, kind);
        }
      }
      asked := kind;
    }

    // The search in the group: skip rules of lesser type, stop before one of greater type
    method Search(groups: seq<RuleGroup>, command: nat, kind: nat) returns (r: Option<Rule>)
      requires Valid(groups, command) && kind > asked && pack.Some? && !done
      modifies this`pack, this`typeNext, this`done, this`asked
      ensures Valid(groups, command) && asked == kind
      ensures r == FindRule(groups, command, kind)
    {
      hide FirstMatch, FindRule;
      r := None;
      while r.None?
        invariant Valid(groups, command) && pack.Some? && !done
        invariant if r.None? then asked < kind else asked == kind && r == FindRule(groups, command, kind)
        decreases r.None?, |pack.value|
      {
        if typeNext == 0 {
          if |pack.value| == 0 {
            done, asked := true, kind;
            return None;
          }
          typeNext := TypeOf(pack.value[0]);
        }
        if typeNext == kind {
          r := Some(pack.value[0]);
        } else if typeNext > kind {
          NoneOfType(pack.value, kind);
          asked := kind;
          return None;
        }
        asked := if typeNext > asked then typeNext else asked;
        pack := Some(pack.value[1..]);
        typeNext := 0;
      }
    }
  }

  // No rule is of a type less than the first one's
  lemma {:induction false} NoneOfType(rules: seq<Rule>, kind: nat)
    requires Ascending(rules) && (rules != [] ==> TypeOf(rules[0]) > kind)
    ensures RuleOfType(rules, kind) == None
    decreases |rules|
  {
    if rules != [] {
      if |rules| > 1 {
        assert TypeOf(rules[0]) < TypeOf(rules[1]);
      }
      NoneOfType(rules[1..], kind);
    }
  }

  // The rule found is the only one of its type
  lemma {:induction false} RuleOfTypeIs(rules: seq<Rule>, kind: nat, r: Rule)
    requires Ascending(rules)
    ensures RuleOfType(rules, kind) == Some(r) <==> r in rules && TypeOf(r) == kind
    decreases |rules|
  {
    if rules != [] {
      RuleOfTypeIs(rules[1..], kind, r);
      if r in rules[1..] {
        var j :| 1 <= j < |rules| && rules[j] == r;
        assert TypeOf(rules[0]) < TypeOf(rules[j]);
      }
    }
  }

  // The rule is one of those for the command
  ghost predicate Ruled(groups: seq<RuleGroup>, command: nat, r: Rule) {
    exists i: nat :: First(groups, command, i) && r in groups[i].rules
  }

  // The rule found for a type is the one of that type in the first group for the command
  lemma FindRuleIs(groups: seq<RuleGroup>, command: nat, kind: nat, r: Rule)
    requires forall g :: g in groups ==> AscendingRules(g)
    ensures FindRule(groups, command, kind) == Some(r) <==> Ruled(groups, command, r) && TypeOf(r) == kind
  {
    hide RuleOfType, TypeOf;
    if FirstMatch(groups, command).Some? {
      var rules := FirstMatch(groups, command).value;
      FirstMatchIs(groups, command, rules);
      RuleOfTypeIs(rules, kind, r);
    }
    if i: nat :| First(groups, command, i) && r in groups[i].rules {
      FirstMatchAt(groups, command, i);
      RuleOfTypeIs(groups[i].rules, kind, r);
    }
  }
}
