// config/parse.c, phase 5: every option gets its value in one pass over an order in which dependencies come first.
module ParseResolve {
  import opened Options
  import opened ParseRules
  import opened ParseCursor
  import opened ParseIndex
  import opened Strings

  datatype ResolveError =
    | DependInvalid
    | BetaRequired
    | PairInvalid
    | ValueInvalid
    | OutOfRange
    | EmptyValue
    | PathInvalid
    | NotAllowed
    | NotBuilt
    | RequiredMissing

  datatype Result = Ok(value: OptionValue) | Err(error: ResolveError)

  datatype Converted = Good(value: Value) | Bad(error: ResolveError)

  // What the pass works on: the tables, the command, which options are valid for it, the index maps of the groups, what
  // was found for each option, and how numbers and identifiers are read from text
  datatype Env = Env(
    t: Tables, command: nat, valid: seq<bool>, maps: seq<seq<nat>>, found: seq<seq<ParseValue>>, help: bool, beta: nat,
    number: (OptionType, string) -> Option<int>, identifier: string -> nat)

  predicate IsOption(env: Env, id: nat) {
    id < |env.t.options| == |env.valid| == |env.found| && env.valid[id]
  }

  function Kind(env: Env, id: nat): OptionType
    requires IsOption(env, id)
  {
    env.t.options[id].kind
  }

  function Groups(env: Env, id: nat): seq<RuleGroup>
    requires IsOption(env, id)
  {
    env.t.options[id].pack
  }

  function IndexTotal(env: Env, id: nat): nat
    requires Sound(env) && IsOption(env, id)
  {
    if env.t.options[id].group.Some? then |env.maps[env.t.options[id].group.value]| else 1
  }

  function KeyIdx(env: Env, id: nat, idx: nat): nat
    requires Sound(env) && IsOption(env, id) && idx < IndexTotal(env, id)
  {
    if env.t.options[id].group.Some? then env.maps[env.t.options[id].group.value][idx] else 0
  }

  function FoundAt(env: Env, id: nat, key: nat): ParseValue
    requires IsOption(env, id)
  {
    if key < |env.found[id]| then env.found[id][key] else ZERO
  }

  function DependOf(env: Env, id: nat): Option<Depend>
    requires IsOption(env, id)
  {
    match FindRule(Groups(env, id), env.command, 1)
    case Some(Valid(d)) => Some(d)
    case _ => None
  }

  // Groups have maps, rules are packed in ascending order, and what was found has a value where one is needed
  ghost predicate Sound(env: Env) {
    && |env.t.options| == |env.valid| == |env.found|
    && (forall id :: 0 <= id < |env.t.options| ==>
          && (env.t.options[id].group.Some? ==> env.t.options[id].group.value < |env.maps|)
          && (forall g :: g in env.t.options[id].pack ==> AscendingRules(g))
          && (env.t.options[id].kind != Boolean ==>
                forall v :: v in env.found[id] && v.found && !v.negate && !v.reset ==> |v.values| > 0))
  }

  // An option depends on a valid option of lower rank, which is in the same group when it is in one
  ghost predicate Ranked(env: Env, rank: nat -> nat) {
    forall id: nat :: IsOption(env, id) && DependOf(env, id).Some? ==>
      var d := DependOf(env, id).value.id;
      && IsOption(env, d) && rank(d) < rank(id)
      && (env.t.options[d].group.Some? ==> env.t.options[d].group == env.t.options[id].group)
  }

  // ---- conversion of what was found

  predicate Numeric(kind: OptionType) {
    kind == Integer || kind == Size || kind == Time
  }

  function Pair(s: string): Option<(string, string)> {
    var at := Find(s, '=', 0);
    if at == |s| then None else Some((s[..at], s[at + 1..]))
  }

  // Later pairs replace earlier ones with the same key, in place
  function Put(pairs: seq<(string, string)>, p: (string, string)): seq<(string, string)> {
    if pairs == [] then [p]
    else if pairs[0].0 == p.0 then [p] + pairs[1..]
    else [pairs[0]] + Put(pairs[1..], p)
  }

  function Hashed(pairs: seq<(string, string)>, values: seq<string>): Converted
    decreases |values|
  {
    if values == [] then Good(HashValue(pairs))
    else match Pair(values[0])
      case None => Bad(PairInvalid)
      case Some(p) => Hashed(Put(pairs, p), values[1..])
  }

  predicate DoubleSlash(s: string) {
    exists i :: 0 <= i < |s| - 1 && s[i] == '/' && s[i + 1] == '/'
  }

  function PathOf(s: string): Converted {
    if s == "" then Bad(EmptyValue)
    else if s[0] != '/' || DoubleSlash(s) then Bad(PathInvalid)
    else if |s| != 1 && s[|s| - 1] == '/' then Good(TextValue(s[..|s| - 1]))
    else Good(TextValue(s))
  }

  // The first allowed value that is this one decides
  function AllowedAt(values: seq<Allowed>, v: Value): Converted {
    if values == [] then Bad(NotAllowed)
    else if values[0].value == v then (if values[0].built then Good(v) else Bad(NotBuilt))
    else AllowedAt(values[1..], v)
  }

  function Single(env: Env, id: nat, s: string): Converted
    requires IsOption(env, id)
  {
    var kind := Kind(env, id);
    if Numeric(kind) then
      match env.number(kind, s)
      case None => Bad(ValueInvalid)
      case Some(n) =>
        match FindRule(Groups(env, id), env.command, 2)
        case Some(AllowRange(min, max)) => if n < min || n > max then Bad(OutOfRange) else Good(IntValue(n))
        case _ => Good(IntValue(n))
    else if kind == StringId then Good(IdValue(env.identifier(s)))
    else if kind == Path then PathOf(s)
    else if s == "" then Bad(EmptyValue)
    else Good(TextValue(s))
  }

  function Convert(env: Env, id: nat, v: ParseValue): Converted
    requires IsOption(env, id) && (Kind(env, id) != Boolean ==> |v.values| > 0)
  {
    match Kind(env, id)
    case Boolean => Good(BoolValue(!v.negate))
    case Hash => Hashed([], v.values)
    case List => Good(ListValue(v.values))
    case _ =>
      var single := Single(env, id, v.values[0]);
      if single.Bad? then single
      else match FindRule(Groups(env, id), env.command, 3)
        case Some(AllowList(values)) => AllowedAt(values, single.value)
        case _ => single
  }

  // ---- what one index of an option resolves to

  // Whether a resolved value meets a dependency. Of several booleans the last one decides.
  predicate Meets(d: Depend, on: OptionValue) {
    on.isSet && match d.list
      case AnyValue => true
      case Booleans(bs) => bs != [] && on.value == BoolValue(bs[|bs| - 1])
      case Ids(ids) => exists id :: id in ids && on.value == IdValue(id)
  }

  predicate BetaMissing(env: Env, id: nat)
    requires IsOption(env, id)
  {
    && env.t.options[id].beta && id != env.beta
    && (env.beta >= |env.found| || |env.found[env.beta]| == 0 || env.found[env.beta][0].negate)
  }

  predicate IsSet(env: Env, id: nat, v: ParseValue)
    requires IsOption(env, id)
  {
    v.found && (Kind(env, id) == Boolean || !v.negate) && !v.reset
  }

  // The text of a single value
  function Display(env: Env, id: nat, v: ParseValue): string
    requires IsOption(env, id) && (Kind(env, id) != Boolean ==> |v.values| > 0)
  {
    if Kind(env, id) in {Boolean, Hash, List} then "" else v.values[0]
  }

  // The value when the dependency is met or there is none
  function Independent(env: Env, id: nat, v: ParseValue): Result
    requires IsOption(env, id) && (IsSet(env, id, v) && Kind(env, id) != Boolean ==> |v.values| > 0)
  {
    var none := OptionValue(false, FromDefault, v.negate, v.reset, NoValue, "");
    if IsSet(env, id, v) then
      if BetaMissing(env, id) then Err(BetaRequired)
      else match Convert(env, id, v)
        case Bad(error) => Err(error)
        case Good(value) => Ok(none.(isSet := true, source := v.source, value := value, display := Display(env, id, v)))
    else if v.negate then Ok(none.(source := v.source))
    else match FindRule(Groups(env, id), env.command, 4)
      case Some(Default(value)) => Ok(none.(isSet := true, value := value))
      case _ =>
        var required := if FindRule(Groups(env, id), env.command, 5).Some? then !env.t.options[id].required
                        else env.t.options[id].required;
        if required && !env.help then Err(RequiredMissing) else Ok(none)
  }

  // The value given that of the option depended on
  function Evaluate(env: Env, id: nat, v: ParseValue, on: Option<OptionValue>): Result
    requires IsOption(env, id) && (IsSet(env, id, v) && Kind(env, id) != Boolean ==> |v.values| > 0)
    requires DependOf(env, id).Some? ==> on.Some?
  {
    var d := DependOf(env, id);
    if d.None? || Meets(d.value, on.value) then Independent(env, id, v)
    else if IsSet(env, id, v) && v.source == FromParam then Err(DependInvalid)
    else
      var none := OptionValue(false, FromDefault, v.negate, v.reset, NoValue, "");
      if d.value.default.Some? then Ok(none.(isSet := true, value := BoolValue(d.value.default.value))) else Ok(none)
  }

  lemma HasValues(env: Env, id: nat, idx: nat)
    requires Sound(env) && IsOption(env, id) && idx < IndexTotal(env, id)
    ensures var v := FoundAt(env, id, KeyIdx(env, id, idx)); IsSet(env, id, v) && Kind(env, id) != Boolean ==>
              |v.values| > 0
  {
    var v := FoundAt(env, id, KeyIdx(env, id, idx));
    if v.found {
      assert v in env.found[id];
    }
  }

  // The meaning of an option by recursion over what it depends on, without any order of resolving
  ghost function Resolve(env: Env, rank: nat -> nat, id: nat, idx: nat): Result
    requires Sound(env) && Ranked(env, rank) && IsOption(env, id) && idx < IndexTotal(env, id)
    decreases rank(id)
  {
    HasValues(env, id, idx);
    var v := FoundAt(env, id, KeyIdx(env, id, idx));
    var d := DependOf(env, id);
    if d.None? then Evaluate(env, id, v, None)
    else
      var on := Resolve(env, rank, d.value.id, if env.t.options[d.value.id].group.Some? then idx else 0);
      if on.Err? then on else Evaluate(env, id, v, Some(on.value))
  }

  // The ranks only serve to end the recursion
  lemma {:induction false} RankIrrelevant(env: Env, rank: nat -> nat, rank': nat -> nat, id: nat, idx: nat)
    requires Sound(env) && Ranked(env, rank) && Ranked(env, rank') && IsOption(env, id) && idx < IndexTotal(env, id)
    ensures Resolve(env, rank, id, idx) == Resolve(env, rank', id, idx)
    decreases rank(id)
  {
    hide Evaluate, FindRule;
    var d := DependOf(env, id);
    if d.Some? {
      RankIrrelevant(env, rank, rank', d.value.id, if env.t.options[d.value.id].group.Some? then idx else 0);
    }
  }

  // ---- the loops

  // cfgParseOptionalFilterDepend
  method FilterDepend(d: Depend, on: OptionValue) returns (valid: bool)
    ensures valid == Meets(d, on)
  {
    valid := false;
    if on.isSet {
      match d.list {
        case AnyValue => valid := true;
        case Booleans(bs) =>
          for i := 0 to |bs|
            invariant valid == (i > 0 && on.value == BoolValue(bs[i - 1]))
          {
            valid := on.value == BoolValue(bs[i]);
          }
        case Ids(ids) =>
          for i := 0 to |ids|
            invariant valid <==> exists id :: id in ids[..i] && on.value == IdValue(id)
          {
            assert ids[..i + 1] == ids[..i] + [ids[i]];
            if on.value == IdValue(ids[i]) {
              valid := true;
            }
          }
          assert ids[..|ids|] == ids;
      }
    }
  }

  // The pairs of a hash option
  method ConvertHash(values: seq<string>) returns (r: Converted)
    ensures r == Hashed([], values)
  {
    var pairs: seq<(string, string)> := [];
    assert values[0..] == values;
    for i := 0 to |values|
      invariant Hashed(pairs, values[i..]) == Hashed([], values)
    {
      assert values[i..][0] == values[i] && values[i..][1..] == values[i + 1..];
      var pair := Pair(values[i]);
      if pair.None? {
        return Bad(PairInvalid);
      }
      pairs := Put(pairs, pair.value);
    }
    return Good(HashValue(pairs));
  }

  // The search of an allow list
  method CheckAllowed(values: seq<Allowed>, v: Value) returns (r: Converted)
    ensures r == AllowedAt(values, v)
  {
    assert values[0..] == values;
    for i := 0 to |values|
      invariant AllowedAt(values[i..], v) == AllowedAt(values, v)
    {
      assert values[i..][0] == values[i] && values[i..][1..] == values[i + 1..];
      if values[i].value == v {
        return if values[i].built then Good(v) else Bad(NotBuilt);
      }
    }
    return Bad(NotAllowed);
  }

  // The value of an option that is set
  method ConvertFound(env: Env, id: nat, v: ParseValue, rules: RuleCursor) returns (r: Converted)
    requires IsOption(env, id) && (Kind(env, id) != Boolean ==> |v.values| > 0)
    requires rules.Valid(Groups(env, id), env.command) && rules.asked == 1
    modifies rules
    ensures r == Convert(env, id, v)
  {
    hide FindRule, Hashed, AllowedAt, PathOf;
    var kind := Kind(env, id);
    if kind == Boolean {
      return Good(BoolValue(!v.negate));
    } else if kind == Hash {
      r := ConvertHash(v.values);
      return;
    } else if kind == List {
      return Good(ListValue(v.values));
    }
    var s := v.values[0];
    if Numeric(kind) {
      var n := env.number(kind, s);
      if n.None? {
        return Bad(ValueInvalid);
      }
      var range := rules.OptionalRule(Groups(env, id), env.command, 2);
      if range.Some? && range.value.AllowRange? && (n.value < range.value.min || n.value > range.value.max) {
        return Bad(OutOfRange);
      }
      r := Good(IntValue(n.value));
    } else if kind == StringId {
      r := Good(IdValue(env.identifier(s)));
    } else if kind == Path {
      r := PathOf(s);
    } else {
      r := if s == "" then Bad(EmptyValue) else Good(TextValue(s));
    }
    if r.Good? {
      var list := rules.OptionalRule(Groups(env, id), env.command, 3);
      if list.Some? && list.value.AllowList? {
        r := CheckAllowed(list.value.values, r.value);
      }
    }
  }

  // One index of one option
  method ResolveIndex(env: Env, id: nat, v: ParseValue, on: Option<OptionValue>) returns (r: Result)
    requires Sound(env) && IsOption(env, id) && (IsSet(env, id, v) && Kind(env, id) != Boolean ==> |v.values| > 0)
    requires DependOf(env, id).Some? ==> on.Some?
    ensures r == Evaluate(env, id, v, on)
  {
    hide FindRule, Convert, Meets, BetaMissing;
    var optionSet := IsSet(env, id, v);
    var value := OptionValue(false, FromDefault, v.negate, v.reset, NoValue, "");
    var rules := new RuleCursor();
    var valid := rules.OptionalRule(Groups(env, id), env.command, 1);
    if valid.Some? && valid.value.Valid? {
      var met := FilterDepend(valid.value.depend, on.value);
      if !met {
        if optionSet && v.source == FromParam {
          return Err(DependInvalid);
        }
        if valid.value.depend.default.Some? {
          value := value.(isSet := true, value := BoolValue(valid.value.depend.default.value));
        }
        return Ok(value);
      }
    }
    if optionSet {
      if BetaMissing(env, id) {
        return Err(BetaRequired);
      }
      var converted := ConvertFound(env, id, v, rules);
      if converted.Bad? {
        return Err(converted.error);
      }
      value := value.(isSet := true, source := v.source, value := converted.value, display := Display(env, id, v));
    } else if v.negate {
      value := value.(source := v.source);
    } else {
      var default := rules.OptionalRule(Groups(env, id), env.command, 4);
      if default.Some? && default.value.Default? {
        value := value.(isSet := true, value := default.value.value);
      } else {
        var rule := rules.OptionalRule(Groups(env, id), env.command, 5);
        var required := if rule.Some? then !env.t.options[id].required else env.t.options[id].required;
        if required && !env.help {
          return Err(RequiredMissing);
        }
      }
    }
    return Ok(value);
  }

  // ---- the pass

  // Every option once, and after what it depends on
  ghost predicate Topological(env: Env, order: seq<nat>)
    requires Sound(env)
  {
    && (forall k :: 0 <= k < |order| ==> order[k] < |env.t.options|)
    && (forall j, k :: 0 <= j < k < |order| ==> order[j] != order[k])
    && (forall id :: 0 <= id < |env.t.options| ==> id in order)
    && (forall k :: 0 <= k < |order| && IsOption(env, order[k]) && DependOf(env, order[k]).Some? ==>
          DependOf(env, order[k]).value.id in order[..k])
  }

  type Values = map<nat, seq<OptionValue>>

  // Up to some index an option has the values it resolves to
  ghost predicate Resolved(env: Env, rank: nat -> nat, id: nat, list: seq<OptionValue>)
    requires Sound(env) && Ranked(env, rank) && IsOption(env, id)
  {
    |list| <= IndexTotal(env, id) && forall i :: 0 <= i < |list| ==> Resolve(env, rank, id, i) == Ok(list[i])
  }

  ghost predicate AllResolved(env: Env, rank: nat -> nat, values: Values)
    requires Sound(env) && Ranked(env, rank)
  {
    forall id :: id in values ==>
        IsOption(env, id) && Resolved(env, rank, id, values[id]) && |values[id]| == IndexTotal(env, id)
  }

  // Some option of the group has a value other than a default at the index
  ghost predicate NotAllDefault(env: Env, values: Values, group: nat, i: nat) {
    exists id :: id in values && HoldsOther(env, values, id, group, i)
  }

  ghost predicate HoldsOther(env: Env, values: Values, id: nat, group: nat, i: nat)
    requires id in values
  {
    && id < |env.t.options| && env.t.options[id].group == Some(group)
    && i < |values[id]| && values[id][i].source != FromDefault
  }

  ghost predicate KeepsRight(env: Env, values: Values, keep: set<(nat, nat)>) {
    forall g: nat, i: nat :: (g, i) in keep <==> NotAllDefault(env, values, g, i)
  }

  lemma KeepsAppend(env: Env, values: Values, keep: set<(nat, nat)>, id: nat, v: OptionValue)
    requires KeepsRight(env, values, keep) && id in values && id < |env.t.options|
    ensures var group := env.t.options[id].group;
            var more: set<(nat, nat)> :=
              if group.Some? && v.source != FromDefault then {(group.value, |values[id]|)} else {};
            KeepsRight(env, values[id := values[id] + [v]], keep + more)
  {
    var group := env.t.options[id].group;
    var more: set<(nat, nat)> := if group.Some? && v.source != FromDefault then {(group.value, |values[id]|)} else {};
    var values' := values[id := values[id] + [v]];
    forall g: nat, i: nat
      ensures (g, i) in keep + more <==> NotAllDefault(env, values', g, i)
    {
      if NotAllDefault(env, values, g, i) {
        var o :| o in values && HoldsOther(env, values, o, g, i);
        assert HoldsOther(env, values', o, g, i);
      }
      if (g, i) in more {
        assert HoldsOther(env, values', id, g, i);
      }
      if NotAllDefault(env, values', g, i) && (g, i) !in more {
        var o :| o in values' && HoldsOther(env, values', o, g, i);
        assert HoldsOther(env, values, o, g, i);
      }
    }
  }

  lemma KeepsNone(env: Env)
    ensures KeepsRight(env, map[], {})
  {
  }

  lemma KeepsStart(env: Env, values: Values, keep: set<(nat, nat)>, id: nat)
    requires KeepsRight(env, values, keep) && id !in values
    ensures KeepsRight(env, values[id := []], keep)
  {
    var values' := values[id := []];
    forall g: nat, i: nat
      ensures NotAllDefault(env, values, g, i) <==> NotAllDefault(env, values', g, i)
    {
      if NotAllDefault(env, values, g, i) {
        var o :| o in values && HoldsOther(env, values, o, g, i);
        assert HoldsOther(env, values', o, g, i);
      }
      if NotAllDefault(env, values', g, i) {
        var o :| o in values' && HoldsOther(env, values', o, g, i);
        assert HoldsOther(env, values, o, g, i);
      }
    }
  }

  // The value already resolved for what an option depends on
  ghost predicate DependencyIs(env: Env, rank: nat -> nat, id: nat, idx: nat, on: Option<OptionValue>)
    requires Sound(env) && Ranked(env, rank) && IsOption(env, id) && idx < IndexTotal(env, id)
  {
    match DependOf(env, id)
    case None => on == None
    case Some(d) =>
      && on.Some?
      && Resolve(env, rank, d.id, if env.t.options[d.id].group.Some? then idx else 0) == Ok(on.value)
  }

  lemma ResolveNext(env: Env, rank: nat -> nat, id: nat, idx: nat, on: Option<OptionValue>)
    requires Sound(env) && Ranked(env, rank) && IsOption(env, id) && idx < IndexTotal(env, id)
    requires DependencyIs(env, rank, id, idx, on)
    ensures var v := FoundAt(env, id, KeyIdx(env, id, idx));
            && (IsSet(env, id, v) && Kind(env, id) != Boolean ==> |v.values| > 0)
            && (DependOf(env, id).Some? ==> on.Some?)
            && Resolve(env, rank, id, idx) == Evaluate(env, id, v, on)
  {
    hide Evaluate;
    HasValues(env, id, idx);
  }

  lemma ResolvedNone(env: Env, rank: nat -> nat, id: nat)
    requires Sound(env) && Ranked(env, rank) && IsOption(env, id)
    ensures Resolved(env, rank, id, [])
  {
  }

  lemma NoDependency(env: Env, rank: nat -> nat, id: nat, idx: nat)
    requires Sound(env) && Ranked(env, rank) && IsOption(env, id) && idx < IndexTotal(env, id)
    requires DependOf(env, id).None?
    ensures DependencyIs(env, rank, id, idx, None)
  {
  }

  lemma ResolvedAppend(env: Env, rank: nat -> nat, id: nat, list: seq<OptionValue>, v: OptionValue)
    requires Sound(env) && Ranked(env, rank) && IsOption(env, id) && Resolved(env, rank, id, list)
    requires |list| < IndexTotal(env, id) && Resolve(env, rank, id, |list|) == Ok(v)
    ensures Resolved(env, rank, id, list + [v])
  {
    hide Resolve;
  }

  // What an option depends on is resolved at every index
  ghost predicate DependencyReady(env: Env, rank: nat -> nat, values: Values, d: nat)
    requires Sound(env) && Ranked(env, rank)
  {
    d in values && IsOption(env, d) && Resolved(env, rank, d, values[d]) && |values[d]| == IndexTotal(env, d)
  }

  lemma DependencyFound(env: Env, rank: nat -> nat, values: Values, id: nat, idx: nat, d: nat)
    requires Sound(env) && Ranked(env, rank) && IsOption(env, id) && idx < IndexTotal(env, id)
    requires DependOf(env, id).Some? && DependOf(env, id).value.id == d
    requires DependencyReady(env, rank, values, d)
    ensures (if env.t.options[d].group.Some? then idx else 0) < |values[d]|
    ensures DependencyIs(env, rank, id, idx, Some(values[d][if env.t.options[d].group.Some? then idx else 0]))
  {
    hide Resolve, FindRule;
  }

  class Config {
    var values: Values
    var keep: set<(nat, nat)>

    constructor ()
      ensures values == map[] && keep == {}
    {
      values, keep := map[], {};
    }

    // The indexes of one option, whose dependency is already resolved
    method ResolveOption(env: Env, ghost rank: nat -> nat, id: nat) returns (error: Option<ResolveError>)
      requires Sound(env) && Ranked(env, rank) && IsOption(env, id) && id !in values
      requires AllResolved(env, rank, values) && KeepsRight(env, values, keep)
      requires DependOf(env, id).Some? ==> DependOf(env, id).value.id in values
      modifies this
      ensures error.None? ==> values.Keys == old(values.Keys) + {id}
      ensures error.None? ==> AllResolved(env, rank, values) && KeepsRight(env, values, keep)
      ensures error.Some? ==> exists i :: 0 <= i < IndexTotal(env, id) && Resolve(env, rank, id, i) == Err(error.value)
    {
      hide Evaluate, DependOf, Resolve, KeepsRight, Ranked, Resolved, Sound;
      KeepsStart(env, values, keep, id);
      ResolvedNone(env, rank, id);
      values := values[id := []];
      while |values[id]| < IndexTotal(env, id)
        invariant values.Keys == old(values.Keys) + {id}
        invariant forall o :: o in old(values) ==> values[o] == old(values)[o]
        invariant Resolved(env, rank, id, values[id]) && |values[id]| <= IndexTotal(env, id)
        invariant KeepsRight(env, values, keep)
        decreases IndexTotal(env, id) - |values[id]|
      {
        var idx := |values[id]|;
        assert DependOf(env, id).Some? ==> DependOf(env, id).value.id in old(values);
        var r := ValueAt(env, rank, id, idx);
        if r.Err? {
          return Some(r.error);
        }
        KeepsAppend(env, values, keep, id, r.value);
        assert keep + {} == keep;
        ResolvedAppend(env, rank, id, values[id], r.value);
        var group := env.t.options[id].group;
        if group.Some? && r.value.source != FromDefault {
          keep := keep + {(group.value, idx)};
        }
        values := values[id := values[id] + [r.value]];
      }
      return None;
    }

    // One index, whose dependency is already resolved
    method ValueAt(env: Env, ghost rank: nat -> nat, id: nat, idx: nat) returns (r: Result)
      requires Sound(env) && Ranked(env, rank) && IsOption(env, id) && idx < IndexTotal(env, id)
      requires DependOf(env, id).Some? ==> DependencyReady(env, rank, values, DependOf(env, id).value.id)
      ensures r == Resolve(env, rank, id, idx)
    {
      hide Evaluate, DependOf, Resolve, Ranked, Resolved, DependencyIs, Sound, IsSet, FoundAt;
      var dependency := DependOf(env, id);
      var on: Option<OptionValue> := None;
      if dependency.Some? {
        var d := dependency.value.id;
        DependencyFound(env, rank, values, id, idx, d);
        on := Some(values[d][if env.t.options[d].group.Some? then idx else 0]);
      } else {
        NoDependency(env, rank, id, idx);
      }
      ResolveNext(env, rank, id, idx, on);
      r := ResolveIndex(env, id, FoundAt(env, id, KeyIdx(env, id, idx)), on);
    }

    // Phase 5. Any order in which dependencies come first gives every valid option, at every index, what it resolves
    // to; the pass ends in an error exactly when some option does not resolve. The flags tell which indexes of a group
    // are kept in phase 6.
    method ResolveAll(env: Env, ghost rank: nat -> nat, order: seq<nat>) returns (error: Option<ResolveError>)
      requires Sound(env) && Ranked(env, rank) && Topological(env, order)
      requires values == map[] && keep == {}
      modifies this
      ensures error.None? <==>
                forall id: nat, i :: IsOption(env, id) && 0 <= i < IndexTotal(env, id) ==> Resolve(env, rank, id, i).Ok?
      ensures error.None? ==> AllResolved(env, rank, values) && forall id: nat :: id in values <==> IsOption(env, id)
      ensures error.None? ==> KeepsRight(env, values, keep)
      ensures error.Some? ==> exists id: nat, i ::
                IsOption(env, id) && 0 <= i < IndexTotal(env, id) && Resolve(env, rank, id, i) == Err(error.value)
    {
      hide FindRule, Resolve, Evaluate, KeepsRight, DependOf;
      KeepsNone(env);
      for k := 0 to |order|
        invariant AllResolved(env, rank, values) && KeepsRight(env, values, keep)
        invariant forall id :: id in values <==> id in order[..k] && IsOption(env, id)
      {
        var id := order[k];
        assert order[..k + 1] == order[..k] + [id];
        if env.valid[id] {
          error := ResolveOption(env, rank, id);
          if error.Some? {
            return;
          }
        }
      }
      assert order[..|order|] == order;
      return None;
    }
  }
}
