// The child of a printed command line: it finds what phase 6 of the parent left, and resolves it to the same values
// unless something that is left was negated in vain.
module ExecChild {
  import opened Decimals
  import opened Options
  import opened ParseRules
  import opened ParseNames
  import opened ParseIndex
  import opened ParseArgs
  import opened ParseArgLaws
  import opened ParseCursor
  import opened ParseResolve
  import opened ParseExample
  import opened Exec
  import opened ExecProof

  // ---- phases 4 to 6

  // What was found for the valid options of a group
  function GroupLists(env: Env, g: nat, n: nat): seq<seq<ParseValue>>
    requires n <= |env.t.options| == |env.valid| == |env.found|
  {
    if n == 0 then []
    else if env.valid[n - 1] && env.t.options[n - 1].group == Some(g) then
      GroupLists(env, g, n - 1) + [env.found[n - 1]]
    else GroupLists(env, g, n - 1)
  }

  // The map that phase 4 gives a group, which is empty when no valid option is in the group
  function MapOf(env: Env, g: nat): seq<nat>
    requires |env.t.options| == |env.valid| == |env.found|
  {
    var lists := GroupLists(env, g, |env.t.options|);
    if lists == [] then [] else IndexMap(lists)
  }

  ghost predicate Mapped(env: Env) {
    && |env.t.options| == |env.valid| == |env.found|
    && forall g: nat :: g < |env.maps| ==> env.maps[g] == MapOf(env, g)
  }

  // The flags of phase 5 for the indexes of a group
  function Flags(keep: set<(nat, nat)>, g: nat, n: nat): (r: seq<bool>)
    ensures |r| == n
  {
    seq(n, i requires 0 <= i < n => (g, i) in keep)
  }

  // The keys of a group that phase 6 leaves
  function KeysLeft(env: Env, keep: set<(nat, nat)>, g: nat): seq<nat>
    requires g < |env.maps|
  {
    var keys := env.maps[g];
    if keys == [] then [] else FinalKeys(keys, Flags(keep, g, |keys|))
  }

  // The values of an option that phase 6 leaves
  function ValuesLeft(env: Env, keep: set<(nat, nat)>, id: nat, s: seq<OptionValue>): seq<OptionValue>
    requires id < |env.t.options|
  {
    match env.t.options[id].group
    case None => s
    case Some(g) => if s == [] then [] else Compacted(s, Flags(keep, g, |s|))
  }

  // The indexes of an option that phase 6 leaves
  function Surviving(env: Env, keep: set<(nat, nat)>, id: nat): seq<nat>
    requires Sound(env) && IsOption(env, id)
  {
    match env.t.options[id].group
    case None => [0]
    case Some(g) => if env.maps[g] == [] then [] else Survivors(Flags(keep, g, |env.maps[g]|))
  }

  // A parent at the end of phase 6: what it works on, the values and flags of phase 5, and the values and maps that are
  // left
  datatype Parent = Parent(env: Env, values: Values, keep: set<(nat, nat)>, left: Setup)

  // The parent got there by phases 4, 5 and 6
  ghost predicate Ran(p: Parent, rank: nat -> nat)
    requires Sound(p.env) && Ranked(p.env, rank)
  {
    && Mapped(p.env)
    && AllResolved(p.env, rank, p.values) && (forall id: nat :: id in p.values <==> IsOption(p.env, id))
    && KeepsRight(p.env, p.values, p.keep)
    && Sized(p.left) && p.left.t == p.env.t && p.left.values.Keys == p.values.Keys
    && |p.left.maps| == |p.env.maps|
    && (forall g: nat :: g < |p.env.maps| ==> p.left.maps[g] == KeysLeft(p.env, p.keep, g))
    && (forall id :: id in p.values ==> p.left.values[id] == ValuesLeft(p.env, p.keep, id, p.values[id]))
  }

  // What an index was given, as phases 1 to 3 leave it
  function GivenAt(env: Env, id: nat, idx: nat): ParseValue
    requires Sound(env) && IsOption(env, id) && idx < IndexTotal(env, id)
  {
    FoundAt(env, id, KeyIdx(env, id, idx))
  }

  ghost predicate Parsed(env: Env)
    requires Sound(env)
  {
    && (forall id: nat, idx: nat :: IsOption(env, id) && idx < IndexTotal(env, id) ==>
          GivenAt(env, id, idx) == ZERO || Given(env, id, GivenAt(env, id, idx)))
    && (forall id: nat :: IsOption(env, id) && env.t.options[id].group.None? && env.found[id] != [] ==>
          env.found[id][0].found)
  }

  // What is left at an index is what phase 5 resolved at the index it was
  lemma LeftAt(p: Parent, rank: nat -> nat, id: nat, j: nat)
    requires Sound(p.env) && Ranked(p.env, rank) && Ran(p, rank) && IsOption(p.env, id)
    ensures id in p.left.values && |p.left.values[id]| == |Surviving(p.env, p.keep, id)|
    ensures j < |p.left.values[id]| ==>
              var i := Surviving(p.env, p.keep, id)[j];
              i < IndexTotal(p.env, id) && Resolve(p.env, rank, id, i) == Ok(p.left.values[id][j])
  {
    hide Resolve, FindRule, KeepsRight, Mapped, Sized, Ranked, Survivors, Compacted, KeysLeft;
    assert Resolved(p.env, rank, id, p.values[id]);
    var group := p.env.t.options[id].group;
    if group.Some? && p.values[id] != [] {
      CompactedAt(p.values[id], Flags(p.keep, group.value, |p.values[id]|));
    }
  }

  // An index is left if an option of the group has a value other than a default there, and the first one also when no
  // index has
  lemma SurvivesWith(p: Parent, rank: nat -> nat, id: nat, i: nat)
    requires Sound(p.env) && Ranked(p.env, rank) && Ran(p, rank) && IsOption(p.env, id) && i < IndexTotal(p.env, id)
    ensures
      i in Surviving(p.env, p.keep, id) <==>
      match p.env.t.options[id].group
      case None => true
      case Some(g) =>
        || NotAllDefault(p.env, p.values, g, i)
        || (i == 0 && forall k: nat :: k < |p.env.maps[g]| ==> !NotAllDefault(p.env, p.values, g, k))
  {
    hide FindRule, Mapped, Sized, Ranked, Survivors, Compacted, KeysLeft, AllResolved, NotAllDefault, ValuesLeft;
    var group := p.env.t.options[id].group;
    if group.Some? {
      var g := group.value;
      var flags := Flags(p.keep, g, |p.env.maps[g]|);
      SurvivesExactly(flags, i);
      assert forall k: nat :: k < |flags| ==> flags[k] == NotAllDefault(p.env, p.values, g, k);
      if true in flags {
        var k: nat :| k < |flags| && flags[k];
        assert NotAllDefault(p.env, p.values, g, k);
      }
    }
  }

  // ---- the child resolves what is left

  // The index that an index depends on
  function DependIdx(env: Env, id: nat, idx: nat): nat
    requires IsOption(env, id) && DependOf(env, id).Some? && DependOf(env, id).value.id < |env.t.options|
  {
    if env.t.options[DependOf(env, id).value.id].group.Some? then idx else 0
  }

  // Neither the index nor anything it depends on was negated in vain
  ghost predicate NothingInVain(env: Env, rank: nat -> nat, id: nat, idx: nat)
    requires Sound(env) && Ranked(env, rank) && IsOption(env, id) && idx < IndexTotal(env, id)
    decreases rank(id)
  {
    DependOf(env, id).Some? ==>
      var d := DependOf(env, id).value;
      var on := Resolve(env, rank, d.id, DependIdx(env, id, idx));
      && NothingInVain(env, rank, d.id, DependIdx(env, id, idx))
      && (on.Ok? ==> !NegatedInVain(env, id, GivenAt(env, id, idx), Some(on.value)))
  }

  // The child works on the same tables, and has its own valid options, maps and values found
  ghost predicate Kin(p: Parent, child: Env) {
    child == p.env.(valid := p.left.child, maps := child.maps, found := child.found)
  }

  // The key at an index of the child is the one at an index that is left in the parent
  ghost predicate Matches(p: Parent, child: Env, id: nat, j: nat, j': nat)
    requires Sized(p.left) && Sound(child)
  {
    && id in p.left.values && j < |p.left.values[id]|
    && IsOption(child, id) && j' < IndexTotal(child, id) && KeyIdx(child, id, j') == KeyAt(p.left, id, j)
  }

  // What the child is given for a value of the parent
  function PassedAs(v: OptionValue): ParseValue {
    if Printed(v) then ChildValue(v) else ZERO
  }

  // Of some options and all that they depend on, the child is given what is left in the parent, at the same keys
  ghost predicate PassedOn(p: Parent, child: Env, ids: set<nat>)
    requires Sized(p.left)
  {
    && Kin(p, child) && Sound(child)
    && (forall id: nat :: id in ids ==>
          && IsOption(p.env, id) && IsOption(child, id) && BetaMissing(child, id) == BetaMissing(p.env, id)
          && (DependOf(p.env, id).Some? ==> DependOf(p.env, id).value.id in ids))
    && (forall id: nat, j: nat, j': nat :: id in ids && Matches(p, child, id, j, j') ==>
          GivenAt(child, id, j') == PassedAs(p.left.values[id][j]))
  }

  // The value depends on nothing else that was found, and of the option depended on only on its value
  lemma SameEvaluate(p: Parent, child: Env, id: nat, v: ParseValue, on: Option<OptionValue>, seen: Option<OptionValue>)
    requires Kin(p, child) && IsOption(p.env, id) && IsOption(child, id)
    requires BetaMissing(child, id) == BetaMissing(p.env, id)
    requires IsSet(p.env, id, v) && Kind(p.env, id) != Boolean ==> |v.values| > 0
    requires DependOf(p.env, id).Some? ==> on.Some? && seen.Some? && SameValue(on.value, seen.value)
    ensures Evaluate(child, id, v, seen) == Evaluate(p.env, id, v, on)
  {
    hide FindRule, BetaMissing, Hashed, AllowedAt, PathOf;
    assert (Kind(p.env, id) != Boolean ==> |v.values| > 0) ==> Convert(child, id, v) == Convert(p.env, id, v);
  }

  // Nothing is printed for a value the child finds by itself
  lemma NotPrinted(env: Env, id: nat, given: ParseValue, on: Option<OptionValue>, v: OptionValue)
    requires IsOption(env, id) && Given(env, id, given) && (DependOf(env, id).Some? ==> on.Some?)
    requires Evaluate(env, id, given, on) == Ok(v) && !Printed(v)
    ensures Evaluate(env, id, ZERO, on) == Ok(v)
    ensures !NegatedInVain(env, id, given, on)
  {
    hide FindRule, Hashed, AllowedAt, PathOf, Meets, BetaMissing;
    if IsSet(env, id, given) && Kind(env, id) == Hash {
      HashedNotEmpty([], given.values);
    } else if IsSet(env, id, given) && Kind(env, id) !in {Boolean, List} {
      SingleIsPlain(env, id, given);
    }
  }

  lemma ChildEvaluates(p: Parent, child: Env, id: nat, given: ParseValue, on: Option<OptionValue>,
                       seen: Option<OptionValue>, v: OptionValue)
    requires Kin(p, child) && IsOption(p.env, id) && IsOption(child, id)
    requires BetaMissing(child, id) == BetaMissing(p.env, id)
    requires given == ZERO || Given(p.env, id, given)
    requires DependOf(p.env, id).Some? ==> on.Some? && seen.Some? && SameValue(on.value, seen.value)
    requires Evaluate(p.env, id, given, on) == Ok(v)
    ensures IsSet(p.env, id, PassedAs(v)) && Kind(p.env, id) != Boolean ==> |PassedAs(v).values| > 0
    ensures Evaluate(child, id, PassedAs(v), seen).Ok? <==> !NegatedInVain(p.env, id, given, on)
    ensures Evaluate(child, id, PassedAs(v), seen).Ok? ==>
              SameValue(v, Evaluate(child, id, PassedAs(v), seen).value)
  {
    hide FindRule, BetaMissing, Meets;
    if Given(p.env, id, given) {
      if Printed(v) {
        ChildAccepts(p.env, id, given, on, v);
      } else {
        NotPrinted(p.env, id, given, on, v);
      }
    }
    SameEvaluate(p, child, id, PassedAs(v), on, seen);
  }

  // An index matches where what it depends on matches
  lemma DependMatches(p: Parent, rank: nat -> nat, child: Env, id: nat, j: nat, j': nat)
    requires Sound(p.env) && Ranked(p.env, rank) && Ran(p, rank) && Kin(p, child) && Sound(child) && Ranked(child, rank)
    requires IsOption(p.env, id) && Matches(p, child, id, j, j') && DependOf(p.env, id).Some?
    ensures
      var d := DependOf(p.env, id).value.id;
      var i := Surviving(p.env, p.keep, id);
      && DependOf(child, id) == DependOf(p.env, id) && IsOption(p.env, d)
      && Matches(p, child, d, DependIdx(p.env, id, j), DependIdx(p.env, id, j'))
      && j < |i|
      && DependIdx(p.env, id, j) < |Surviving(p.env, p.keep, d)|
      && Surviving(p.env, p.keep, d)[DependIdx(p.env, id, j)] == DependIdx(p.env, id, i[j])
  {
    hide FindRule, Mapped, AllResolved, KeepsRight, ValuesLeft, KeysLeft, Survivors;
    var d := DependOf(p.env, id).value.id;
    LeftAt(p, rank, id, j);
    LeftAt(p, rank, d, 0);
    assert DependOf(child, id) == DependOf(p.env, id);
  }

  // The child resolves an index, and to the value that is left in the parent, if and only if nothing there was negated
  // in vain
  ghost predicate ResolvesAlike(p: Parent, rank: nat -> nat, child: Env, id: nat, j: nat, j': nat)
    requires Sound(p.env) && Ranked(p.env, rank) && Sound(child) && Ranked(child, rank)
    requires Sized(p.left) && Matches(p, child, id, j, j')
  {
    && IsOption(p.env, id)
    && var i := Surviving(p.env, p.keep, id);
       var r := Resolve(child, rank, id, j');
       && j < |i| && i[j] < IndexTotal(p.env, id)
       && (r.Ok? <==> NothingInVain(p.env, rank, id, i[j]))
       && (r.Ok? ==> SameValue(p.left.values[id][j], r.value))
  }

  lemma {:induction false} ChildResolves(p: Parent, rank: nat -> nat, child: Env, ids: set<nat>, id: nat, j: nat,
                                         j': nat)
    requires Sound(p.env) && Ranked(p.env, rank) && Ran(p, rank) && Parsed(p.env)
    requires Sized(p.left) && PassedOn(p, child, ids) && Ranked(child, rank)
    requires id in ids && Matches(p, child, id, j, j')
    ensures ResolvesAlike(p, rank, child, id, j, j')
    decreases rank(id)
  {
    hide Evaluate, FindRule, PassedAs, BetaMissing, Meets, Surviving, Given, Ran, Sized, KeyAt, KeyIdx;
    LeftAt(p, rank, id, j);
    var i := Surviving(p.env, p.keep, id)[j];
    var v, given := p.left.values[id][j], GivenAt(p.env, id, i);
    var d := DependOf(p.env, id);
    var on, seen := None, None;
    if d.Some? {
      DependMatches(p, rank, child, id, j, j');
      var at, at' := DependIdx(p.env, id, j), DependIdx(p.env, id, j');
      ChildResolves(p, rank, child, ids, d.value.id, at, at');
      LeftAt(p, rank, d.value.id, at);
      if Resolve(child, rank, d.value.id, at').Err? {
        return;
      }
      on, seen := Some(p.left.values[d.value.id][at]), Some(Resolve(child, rank, d.value.id, at').value);
    }
    ChildEvaluates(p, child, id, given, on, seen, v);
  }

  // ---- what the child finds

  function AtKey(found: map<(nat, nat), ParseValue>, id: nat, k: nat): ParseValue {
    if (id, k) in found then found[(id, k)] else ZERO
  }

  // The lists of the options hold what was found, and an option nothing was found for has none
  ghost predicate Lists(found: map<(nat, nat), ParseValue>, lists: seq<seq<ParseValue>>) {
    && (forall id: nat, k: nat :: id < |lists| && k < |lists[id]| ==> lists[id][k] == AtKey(found, id, k))
    && (forall id: nat, k: nat :: id < |lists| && (id, k) in found ==> k < |lists[id]|)
    && (forall id: nat :: id < |lists| && lists[id] != [] ==> exists k: nat :: (id, k) in found)
  }

  // The child has what phase 1 finds in the arguments that the parent prints
  ghost predicate Started(p: Parent, command: nat, role: Role, child: Env) {
    && Ready(p.left) && command < |p.left.t.commands| && command != p.left.t.help
    && role in p.left.t.commands[command].roles
    && Kin(p, child) && |child.maps| == |p.env.maps| && |child.found| == |p.env.found|
    && var args := OptionArgs(p.left, 0) + [CommandText(p.left.t, command, role)];
       var step := ParseFrom(p.left.t, StartLine(p.left.t), args, 0);
       step.Next? && step.i == |args| && Lists(step.line.found, child.found)
  }

  // The options are valid in the child, with all that they depend on, and what is printed of them is passed
  ghost predicate Covered(p: Parent, ids: set<nat>)
    requires Sized(p.left)
  {
    forall id: nat :: id in ids ==>
      && IsOption(p.env, id) && id < |p.left.child| && p.left.child[id] && id in p.left.values
      && (forall j :: 0 <= j < |p.left.values[id]| && Printed(p.left.values[id][j]) ==> Passed(p.left, id))
      && (DependOf(p.env, id).Some? ==> DependOf(p.env, id).value.id in ids)
      && (p.env.t.options[id].beta && id != p.env.beta ==> p.env.beta in ids && StandsAlone(p.env, p.env.beta))
  }

  // A boolean that stands alone
  ghost predicate StandsAlone(env: Env, id: nat) {
    IsOption(env, id) && Kind(env, id) == Boolean && env.t.options[id].group.None? && DependOf(env, id).None?
  }

  // Each list of the child at a key is what was printed there
  ghost predicate Holds(p: Parent, child: Env)
    requires Sized(p.left)
  {
    && |child.found| == |p.left.t.options|
    && (forall id: nat, j: nat :: Prints(p.left, id, j) ==>
          && KeyAt(p.left, id, j) < |child.found[id]|
          && child.found[id][KeyAt(p.left, id, j)] == ChildValue(p.left.values[id][j]))
    && (forall id: nat, k: nat :: id < |child.found| && k < |child.found[id]| && child.found[id][k] != ZERO ==>
          exists j: nat :: Prints(p.left, id, j) && KeyAt(p.left, id, j) == k)
    && (forall id: nat :: id < |child.found| && child.found[id] != [] ==> exists j: nat :: Prints(p.left, id, j))
  }

  lemma StartedHolds(p: Parent, command: nat, role: Role, child: Env)
    requires Started(p, command, role, child) && |p.env.found| == |p.left.t.options|
    ensures Sized(p.left) && Holds(p, child)
  {
    hide OptionArgs, Printed, ChildValue, Fit, ParseFrom, WellFormed, Sized, KeyAt;
    var line := ExecRoundTrip(p.left, command, role);
    assert Lists(line.found, child.found);
    forall id: nat, k: nat | id < |child.found| && k < |child.found[id]| && child.found[id][k] != ZERO
      ensures exists j: nat :: Prints(p.left, id, j) && KeyAt(p.left, id, j) == k
    {
      assert child.found[id][k] == AtKey(line.found, id, k);
    }
    forall id: nat | id < |child.found| && child.found[id] != []
      ensures exists j: nat :: Prints(p.left, id, j)
    {
      var k: nat :| (id, k) in line.found;
    }
    forall id: nat, j: nat | Prints(p.left, id, j)
      ensures KeyAt(p.left, id, j) < |child.found[id]|
      ensures child.found[id][KeyAt(p.left, id, j)] == ChildValue(p.left.values[id][j])
    {
      var k := KeyAt(p.left, id, j);
      assert child.found[id][k] == AtKey(line.found, id, k);
    }
  }

  lemma ChildSound(p: Parent, child: Env)
    requires Ready(p.left) && p.left.t == p.env.t && Sound(p.env) && Kin(p, child) && |child.maps| == |p.env.maps|
    requires Holds(p, child)
    ensures Sound(child)
  {
    hide WellFormed, NameFits, AscendingRules;
    forall id: nat, v | id < |p.env.t.options| && v in child.found[id] && v.found && !v.negate && !v.reset
      ensures p.env.t.options[id].kind != Boolean ==> |v.values| > 0
    {
      var k: nat :| k < |child.found[id]| && child.found[id][k] == v;
      var j: nat :| Prints(p.left, id, j) && KeyAt(p.left, id, j) == k;
      assert v == ChildValue(p.left.values[id][j]);
    }
  }

  // Every key of a passed option has what was printed for its index, since the keys differ
  lemma ChildGiven(p: Parent, child: Env, ids: set<nat>, id: nat, j: nat, j': nat)
    requires Ready(p.left) && Covered(p, ids) && Sound(child) && Holds(p, child)
    requires id in ids && Matches(p, child, id, j, j')
    ensures GivenAt(child, id, j') == PassedAs(p.left.values[id][j])
  {
    hide WellFormed, Fit, Printed, ChildValue, StandsAlone;
    var k := KeyAt(p.left, id, j);
    assert Prints(p.left, id, j) <==> Printed(p.left.values[id][j]);
    if k < |child.found[id]| && child.found[id][k] != ZERO {
      var i: nat :| Prints(p.left, id, i) && KeyAt(p.left, id, i) == k;
      KeyUnique(p.left, id, i, j);
    }
  }

  // A boolean that stands alone is given to the child negated when it was given to the parent negated, and not given
  // when it was not
  lemma PlainGiven(env: Env, id: nat, given: ParseValue, v: OptionValue)
    requires StandsAlone(env, id) && (given == ZERO || Given(env, id, given))
    requires Evaluate(env, id, given, None) == Ok(v)
    ensures Printed(v) <==> given != ZERO
    ensures Printed(v) ==> ChildValue(v).negate == given.negate
  {
    hide FindRule;
  }

  lemma BetaSame(p: Parent, rank: nat -> nat, child: Env, ids: set<nat>, id: nat)
    requires Sound(p.env) && Ranked(p.env, rank) && Ran(p, rank) && Parsed(p.env)
    requires Ready(p.left) && Covered(p, ids) && Kin(p, child) && Holds(p, child) && |child.found| == |p.env.found|
    requires id in ids && IsOption(child, id)
    ensures BetaMissing(child, id) == BetaMissing(p.env, id)
  {
    hide WellFormed, Fit, ChildValue, Printed, Evaluate, FindRule, Mapped, AllResolved, KeepsRight, ValuesLeft;
    hide KeysLeft;
    var b := p.env.beta;
    if p.env.t.options[id].beta && id != b {
      var given := GivenAt(p.env, b, 0);
      LeftAt(p, rank, b, 0);
      var v := p.left.values[b][0];
      PlainGiven(p.env, b, given, v);
      assert Prints(p.left, b, 0) <==> Printed(v);
      assert forall j: nat :: Prints(p.left, b, j) ==> j == 0;
      assert KeyAt(p.left, b, 0) == 0;
    }
  }

  lemma AllGiven(p: Parent, child: Env, ids: set<nat>)
    requires Ready(p.left) && Sized(p.left) && Covered(p, ids) && Sound(child) && Holds(p, child)
    ensures forall id: nat, j: nat, j': nat :: id in ids && Matches(p, child, id, j, j') ==>
              GivenAt(child, id, j') == PassedAs(p.left.values[id][j])
  {
    hide Covered, Holds, Sound, Ready, GivenAt, PassedAs, KeyAt, KeyIdx;
    forall id: nat, j: nat, j': nat | id in ids && Matches(p, child, id, j, j')
      ensures GivenAt(child, id, j') == PassedAs(p.left.values[id][j])
    {
      ChildGiven(p, child, ids, id, j, j');
    }
  }

  // So the child has been passed what is left
  lemma StartedPasses(p: Parent, rank: nat -> nat, command: nat, role: Role, child: Env, ids: set<nat>)
    requires Sound(p.env) && Ranked(p.env, rank) && Ran(p, rank) && Parsed(p.env)
    requires Started(p, command, role, child) && Covered(p, ids)
    ensures PassedOn(p, child, ids)
  {
    hide BetaMissing, Parsed, Prints, GivenAt, Matches, StandsAlone, Fit, WellFormed, FindRule, Mapped, AllResolved,
      KeepsRight, ValuesLeft, KeysLeft, Holds, ParseFrom, OptionArgs, CommandText, Lists;
    StartedHolds(p, command, role, child);
    ChildSound(p, child);
    AllGiven(p, child, ids);
    forall id: nat | id in ids
      ensures IsOption(child, id) && BetaMissing(child, id) == BetaMissing(p.env, id)
    {
      BetaSame(p, rank, child, ids, id);
    }
  }

  // From the values of the parent over the printed arguments to those of the child: at every index that phase 6 left,
  // and that the child has under the same key, it resolves the option, and to the value of the parent, if and only if
  // neither that nor anything it depends on was negated in vain
  lemma ChildOfPrinted(p: Parent, rank: nat -> nat, command: nat, role: Role, child: Env, ids: set<nat>)
    requires Sound(p.env) && Ranked(p.env, rank) && Ran(p, rank) && Parsed(p.env)
    requires Started(p, command, role, child) && Ranked(child, rank) && Covered(p, ids)
    ensures Sized(p.left) && Sound(child)
    ensures forall id: nat, j: nat, j': nat :: id in ids && Matches(p, child, id, j, j') ==>
              ResolvesAlike(p, rank, child, id, j, j')
  {
    StartedPasses(p, rank, command, role, child, ids);
    Alike(p, rank, child, ids);
    hide *;
  }

  lemma Alike(p: Parent, rank: nat -> nat, child: Env, ids: set<nat>)
    requires Sound(p.env) && Ranked(p.env, rank) && Ran(p, rank) && Parsed(p.env)
    requires Sized(p.left) && PassedOn(p, child, ids) && Ranked(child, rank)
    ensures forall id: nat, j: nat, j': nat :: id in ids && Matches(p, child, id, j, j') ==>
              ResolvesAlike(p, rank, child, id, j, j')
  {
    hide ResolvesAlike, Parsed, Matches, Ran;
    forall id: nat, j: nat, j': nat | id in ids && Matches(p, child, id, j, j')
      ensures ResolvesAlike(p, rank, child, id, j, j')
    {
      ChildResolves(p, rank, child, ids, id, j, j');
    }
  }

  // ---- the index maps of the child

  // An option of the group has a value at the key
  predicate Fills(env: Env, g: nat, id: nat, k: nat)
    requires |env.t.options| == |env.valid| == |env.found|
  {
    id < |env.t.options| && env.valid[id] && env.t.options[id].group == Some(g) && Sets(env.found[id], k)
  }

  lemma UsedNone(k: nat)
    ensures !Used([], k)
  {
  }

  lemma UsedLast(lists: seq<seq<ParseValue>>, list: seq<ParseValue>, k: nat)
    ensures Used(lists + [list], k) <==> Used(lists, k) || Sets(list, k)
  {
    hide Sets;
    var all := lists + [list];
    assert all[|lists|] == list;
    if Used(lists, k) {
      var i: nat :| i < |lists| && Sets(lists[i], k);
      assert all[i] == lists[i];
    }
  }

  lemma {:induction false} GroupUses(env: Env, g: nat, n: nat, k: nat)
    requires n <= |env.t.options| == |env.valid| == |env.found|
    ensures Used(GroupLists(env, g, n), k) <==> exists id: nat :: id < n && Fills(env, g, id, k)
    decreases n
  {
    hide Used, Sets;
    if n == 0 {
      UsedNone(k);
    } else {
      GroupUses(env, g, n - 1, k);
      UsedLast(GroupLists(env, g, n - 1), env.found[n - 1], k);
      if Fills(env, g, n - 1, k) {
      }
    }
  }

  // Something that is printed and is not a reset
  predicate Shows(c: Setup, g: nat, id: nat, j: nat)
    requires Sized(c)
  {
    Prints(c, id, j) && c.t.options[id].group == Some(g) && !ChildValue(c.values[id][j]).reset
  }

  ghost predicate Shown(c: Setup, g: nat, j: nat)
    requires Sized(c)
  {
    exists id: nat :: Shows(c, g, id, j)
  }

  lemma FillsShows(p: Parent, child: Env, g: nat, id: nat, k: nat) returns (j: nat)
    requires Ready(p.left) && p.left.t == p.env.t && Kin(p, child) && |child.valid| == |child.found|
    requires Holds(p, child) && g < |p.left.maps| && Fills(child, g, id, k)
    ensures j < |p.left.maps[g]| && Shows(p.left, g, id, j) && p.left.maps[g][j] == k
  {
    hide WellFormed, Fit, ChildValue, Printed;
    j :| Prints(p.left, id, j) && KeyAt(p.left, id, j) == k;
  }

  lemma ShowsFills(p: Parent, child: Env, g: nat, id: nat, j: nat)
    requires Ready(p.left) && p.left.t == p.env.t && Kin(p, child) && |child.valid| == |child.found|
    requires Holds(p, child) && g < |p.left.maps| && j < |p.left.maps[g]| && Shows(p.left, g, id, j)
    ensures Fills(child, g, id, p.left.maps[g][j])
  {
    hide WellFormed, Fit, Texts, Printed;
    assert KeyAt(p.left, id, j) == p.left.maps[g][j];
  }

  lemma FillsShown(p: Parent, child: Env, g: nat, k: nat)
    requires Ready(p.left) && p.left.t == p.env.t && Kin(p, child)
    requires |child.t.options| == |child.valid| == |child.found|
    requires Sized(p.left) && Holds(p, child) && g < |p.left.maps|
    ensures (exists id: nat :: Fills(child, g, id, k)) <==>
            exists j: nat :: j < |p.left.maps[g]| && Shown(p.left, g, j) && p.left.maps[g][j] == k
  {
    hide WellFormed, Fit, Holds, Fills, Shows, Ready;
    if id: nat :| Fills(child, g, id, k) {
      var j := FillsShows(p, child, g, id, k);
      assert Shown(p.left, g, j);
    }
    if j: nat :| j < |p.left.maps[g]| && Shown(p.left, g, j) && p.left.maps[g][j] == k {
      var id: nat :| Shows(p.left, g, id, j);
      ShowsFills(p, child, g, id, j);
    }
  }

  // The keys that are left in a group ascend and are keys
  lemma LeftAscends(p: Parent, rank: nat -> nat, g: nat)
    requires Sound(p.env) && Ranked(p.env, rank) && Ran(p, rank) && g < |p.left.maps|
    ensures Ascends(p.left.maps[g]) && forall j: nat :: j < |p.left.maps[g]| ==> p.left.maps[g][j] < KEY_MAX
  {
    hide FindRule, AllResolved, KeepsRight, Sized, ValuesLeft, UsedKeys, Used, FinalKeys;
    var keys := p.env.maps[g];
    UsedKeysExact(GroupLists(p.env, g, |p.env.t.options|), KEY_MAX);
    if keys != [] {
      FinalAscends(keys, Flags(p.keep, g, |keys|));
      forall j: nat | j < |p.left.maps[g]|
        ensures p.left.maps[g][j] < KEY_MAX
      {
        assert p.left.maps[g][j] in FinalKeys(keys, Flags(p.keep, g, |keys|));
      }
    }
  }

  // The positions of a group at which the child finds something
  ghost function ShownAt(c: Setup, g: nat): set<nat>
    requires Sized(c) && g < |c.maps|
  {
    set j: nat | j < |c.maps[g]| && Shown(c, g, j)
  }

  lemma UsedInChild(p: Parent, child: Env, g: nat, k: nat)
    requires Ready(p.left) && p.left.t == p.env.t && Kin(p, child)
    requires |child.t.options| == |child.valid| == |child.found|
    requires Sized(p.left) && Holds(p, child) && g < |p.left.maps|
    requires forall j: nat :: j < |p.left.maps[g]| ==> p.left.maps[g][j] < KEY_MAX
    ensures k in UsedKeys(GroupLists(child, g, |child.t.options|), KEY_MAX) <==>
            exists j: nat :: j in ShownAt(p.left, g) && p.left.maps[g][j] == k
  {
    hide Ready, Sized, Holds, Used, UsedKeys, Fills, Shown;
    UsedKeysExact(GroupLists(child, g, |child.t.options|), KEY_MAX);
    GroupUses(child, g, |child.t.options|, k);
    FillsShown(p, child, g, k);
    if id: nat :| Fills(child, g, id, k) {
      assert id < |child.t.options| by {
        FillsIs(child, g, id, k);
      }
    }
  }

  lemma FillsIs(env: Env, g: nat, id: nat, k: nat)
    requires |env.t.options| == |env.valid| == |env.found| && Fills(env, g, id, k)
    ensures id < |env.t.options|
  {
  }

  predicate InGroup(env: Env, g: nat, id: nat) {
    id < |env.t.options| == |env.valid| && env.valid[id] && env.t.options[id].group == Some(g)
  }

  lemma {:induction false} HasLists(env: Env, g: nat, n: nat)
    requires n <= |env.t.options| == |env.valid| == |env.found|
    requires exists id: nat :: id < n && InGroup(env, g, id)
    ensures GroupLists(env, g, n) != []
    decreases n
  {
    if !InGroup(env, g, n - 1) {
      HasLists(env, g, n - 1);
    }
  }

  // The keys at some of the positions are all keys if and only if those are all positions
  lemma KeysAre(keys: seq<nat>, some: seq<nat>, at: set<nat>)
    requires Ascends(keys) && Ascends(some) && forall j: nat :: j in at ==> j < |keys|
    requires forall k: nat :: k in some <==> exists j: nat :: j in at && keys[j] == k
    ensures keys != [] ==>
              ((if some == [] then [0] else some) == keys <==> keys == [0] || forall j: nat :: j < |keys| ==> j in at)
    ensures forall k: nat :: k in some ==> k in keys
  {
    forall j: nat | j < |keys| && keys[j] in some
      ensures j in at
    {
      var i: nat :| i in at && keys[i] == keys[j];
      if i < j {
        StrictlyAscending(keys, i, j);
      } else if j < i {
        StrictlyAscending(keys, j, i);
      }
    }
    if keys == [0] && some != [] {
      assert some[0] in some;
    }
    if (keys == [0] && some != []) || forall j: nat :: j < |keys| ==> j in at {
      forall k: nat
        ensures k in keys <==> k in some
      {
      }
      AscendingSame(keys, some);
    }
  }

  // Phase 4 of the child gives a group the keys that are left in the parent if and only if every one of them has
  // something printed that is not a reset, or the first key is the only one. Otherwise it gives it fewer, or the first
  // one when nothing is set.
  lemma ChildMaps(p: Parent, rank: nat -> nat, command: nat, role: Role, child: Env, g: nat)
    requires Sound(p.env) && Ranked(p.env, rank) && Ran(p, rank)
    requires Started(p, command, role, child) && Mapped(child)
    requires g < |p.left.maps| && exists id: nat :: InGroup(child, g, id)
    ensures Sized(p.left)
    ensures p.left.maps[g] != [] ==>
              (child.maps[g] == p.left.maps[g] <==>
               p.left.maps[g] == [0] || forall j: nat :: j < |p.left.maps[g]| ==> Shown(p.left, g, j))
    ensures child.maps[g] == [0] || forall k :: k in child.maps[g] ==> k in p.left.maps[g]
  {
    hide FindRule, AllResolved, KeepsRight, Sized, ValuesLeft, KeysLeft, UsedKeys, Used, Shown, Fills, Holds, ParseFrom,
      OptionArgs, CommandText, Lists, Fit, WellFormed;
    StartedHolds(p, command, role, child);
    LeftAscends(p, rank, g);
    HasLists(child, g, |child.t.options|);
    var used := UsedKeys(GroupLists(child, g, |child.t.options|), KEY_MAX);
    forall k: nat
      ensures k in used <==> exists j: nat :: j in ShownAt(p.left, g) && p.left.maps[g][j] == k
    {
      UsedInChild(p, child, g, k);
    }
    UsedKeysExact(GroupLists(child, g, |child.t.options|), KEY_MAX);
    KeysAre(p.left.maps[g], used, ShownAt(p.left, g));
    assert child.maps[g] == if used == [] then [0] else used;
    assert forall j: nat :: j < |p.left.maps[g]| ==> (j in ShownAt(p.left, g) <==> Shown(p.left, g, j));
  }

  // A value that is passed and is no default is something printed that is not a reset, so the child keeps its key
  lemma OtherShows(p: Parent, rank: nat -> nat, id: nat, g: nat, j: nat)
    requires Sound(p.env) && Ranked(p.env, rank) && Ran(p, rank) && Parsed(p.env)
    requires id < |p.env.t.options| && Passed(p.left, id) && p.env.t.options[id].group == Some(g)
    requires j < |p.left.values[id]| && p.left.values[id][j].source != FromDefault
    ensures Shows(p.left, g, id, j)
  {
    hide FindRule, KeepsRight, Mapped, ValuesLeft, KeysLeft, AllResolved, Evaluate, Surviving;
    LeftAt(p, rank, id, j);
    var i := Surviving(p.env, p.keep, id)[j];
    var d := DependOf(p.env, id);
    var on := if d.None? then None else Some(Resolve(p.env, rank, d.value.id, DependIdx(p.env, id, i)).value);
    OtherPrinted(p.env, id, GivenAt(p.env, id, i), on, p.left.values[id][j]);
  }

  lemma OtherPrinted(env: Env, id: nat, given: ParseValue, on: Option<OptionValue>, v: OptionValue)
    requires IsOption(env, id) && (given == ZERO || Given(env, id, given)) && (DependOf(env, id).Some? ==> on.Some?)
    requires Evaluate(env, id, given, on) == Ok(v) && v.source != FromDefault
    ensures Printed(v) && !ChildValue(v).reset
  {
    hide FindRule, Hashed, AllowedAt, PathOf, Meets, BetaMissing;
    if IsSet(env, id, given) && Kind(env, id) == Hash {
      HashedNotEmpty([], given.values);
    } else if IsSet(env, id, given) && Kind(env, id) !in {Boolean, List} {
      SingleIsPlain(env, id, given);
    }
  }

  // ---- the whole child

  lemma SameMaps(p: Parent, rank: nat -> nat, child: Env, id: nat, j: nat)
    requires Sound(p.env) && Ranked(p.env, rank) && Ran(p, rank) && Kin(p, child) && Sound(child)
    requires child.maps == p.left.maps && IsOption(p.env, id) && IsOption(child, id)
    ensures IndexTotal(child, id) == |Surviving(p.env, p.keep, id)|
    ensures j < IndexTotal(child, id) ==> Matches(p, child, id, j, j)
  {
    hide FindRule, Mapped, AllResolved, KeepsRight, ValuesLeft, KeysLeft, Surviving, Ranked;
    LeftAt(p, rank, id, j);
  }

  // The child has all values of these options
  ghost predicate Runs(child: Env, rank: nat -> nat, ids: set<nat>)
    requires Sound(child) && Ranked(child, rank)
  {
    forall id: nat, j: nat :: id in ids && IsOption(child, id) && j < IndexTotal(child, id) ==>
      Resolve(child, rank, id, j).Ok?
  }

  // No negation in vain is left at any index of these options, or at one it depends on
  ghost predicate NothingLeftInVain(p: Parent, rank: nat -> nat, ids: set<nat>)
    requires Sound(p.env) && Ranked(p.env, rank)
  {
    forall id: nat, i: nat :: id in ids && IsOption(p.env, id) && i in Surviving(p.env, p.keep, id) ==>
      i < IndexTotal(p.env, id) && NothingInVain(p.env, rank, id, i)
  }

  // A child with the index maps that phase 6 left runs if and only if no negation in vain is left
  lemma ChildRuns(p: Parent, rank: nat -> nat, command: nat, role: Role, child: Env, ids: set<nat>)
    requires Sound(p.env) && Ranked(p.env, rank) && Ran(p, rank) && Parsed(p.env)
    requires Started(p, command, role, child) && Ranked(child, rank) && Covered(p, ids)
    requires child.maps == p.left.maps
    ensures Sound(child) && (Runs(child, rank, ids) <==> NothingLeftInVain(p, rank, ids))
  {
    StartedPasses(p, rank, command, role, child, ids);
    Alike(p, rank, child, ids);
    AllRun(p, rank, child, ids);
    hide *;
  }

  lemma AllRun(p: Parent, rank: nat -> nat, child: Env, ids: set<nat>)
    requires Sound(p.env) && Ranked(p.env, rank) && Ran(p, rank)
    requires Sized(p.left) && PassedOn(p, child, ids) && Ranked(child, rank) && child.maps == p.left.maps
    requires forall id: nat, j: nat, j': nat :: id in ids && Matches(p, child, id, j, j') ==>
               ResolvesAlike(p, rank, child, id, j, j')
    ensures Runs(child, rank, ids) <==> NothingLeftInVain(p, rank, ids)
  {
    hide Ran, Matches, Sized, Resolve, NothingInVain, Surviving, Evaluate, DependOf, BetaMissing, GivenAt, PassedAs,
      Sound, Ranked, IndexTotal, IsOption;
    if Runs(child, rank, ids) {
      forall id: nat, i: nat | id in ids && IsOption(p.env, id) && i in Surviving(p.env, p.keep, id)
        ensures i < IndexTotal(p.env, id) && NothingInVain(p.env, rank, id, i)
      {
        var j: nat :| j < |Surviving(p.env, p.keep, id)| && Surviving(p.env, p.keep, id)[j] == i;
        SameMaps(p, rank, child, id, j);
        assert ResolvesAlike(p, rank, child, id, j, j);
      }
    }
    if NothingLeftInVain(p, rank, ids) {
      forall id: nat, j: nat | id in ids && IsOption(child, id) && j < IndexTotal(child, id)
        ensures Resolve(child, rank, id, j).Ok?
      {
        SameMaps(p, rank, child, id, j);
        assert ResolvesAlike(p, rank, child, id, j, j);
        assert Surviving(p.env, p.keep, id)[j] in Surviving(p.env, p.keep, id);
      }
    }
  }

  // ---- examples

  function LastOf(e: Example): nat {
    if e == Second then 1 else 0
  }

  // The parents of two of the examples, with one index left
  function ParentOf(e: Example): Parent
    requires e != InArgs
  {
    var i := LastOf(e);
    Parent(EnvOf(e),
           if e == Second then
             map[0 := [TypeAt(e, 0), TypeAt(e, 1)], 1 := [VerifyAt(e, 0).value, VerifyAt(e, 1).value]]
           else map[0 := [TypeAt(e, 0)], 1 := [VerifyAt(e, 0).value]],
           {(REPO, i)},
           Setup(TABLES, map[0 := [TypeAt(e, i)], 1 := [VerifyAt(e, i).value]], [[0]], [true, true], 2))
  }

  lemma RepoLists(e: Example)
    ensures |EnvOf(e).t.options| == |EnvOf(e).valid| == |EnvOf(e).found|
    ensures GroupLists(EnvOf(e), REPO, 2) == EnvOf(e).found
  {
    var found := EnvOf(e).found;
    assert GroupLists(EnvOf(e), REPO, 1) == [found[0]];
  }

  lemma RepoMapped(e: Example)
    ensures Mapped(EnvOf(e))
  {
    RepoLists(e);
    var found := EnvOf(e).found;
    hide GroupLists, Used;
    if e == Second {
      SecondMapped();
    } else {
      UsedKeysEnd(found, 1, KEY_MAX);
      OneUsed(found);
    }
  }

  lemma OneUsed(lists: seq<seq<ParseValue>>)
    requires lists != [] && Sets(lists[0], 0)
    ensures UsedKeys(lists, 1) == [0]
  {
    assert UsedKeys(lists, 0) == [];
  }

  lemma RepoParsed(e: Example)
    ensures Sound(EnvOf(e)) && Parsed(EnvOf(e))
  {
    RepoRanked(e);
    RepoRules(EnvOf(e));
    hide FindRule, Sound;
    forall id: nat, idx: nat | IsOption(EnvOf(e), id) && idx < IndexTotal(EnvOf(e), id)
      ensures GivenAt(EnvOf(e), id, idx) == ZERO || Given(EnvOf(e), id, GivenAt(EnvOf(e), id, idx))
    {
    }
  }

  lemma RepoKeeps(e: Example)
    requires e != InArgs
    ensures KeepsRight(ParentOf(e).env, ParentOf(e).values, ParentOf(e).keep)
  {
    var p := ParentOf(e);
    forall g: nat, i: nat
      ensures (g, i) in p.keep <==> NotAllDefault(p.env, p.values, g, i)
    {
      if NotAllDefault(p.env, p.values, g, i) {
        var id :| id in p.values && HoldsOther(p.env, p.values, id, g, i);
      }
      if (g, i) in p.keep {
        assert HoldsOther(p.env, p.values, 0, g, i);
      }
    }
  }

  lemma RepoColumn(e: Example, id: nat)
    requires e != InArgs && id < 2
    ensures Sound(EnvOf(e)) && Ranked(EnvOf(e), ById) && IsOption(EnvOf(e), id)
    ensures
      var list := ParentOf(e).values[id];
      Resolved(EnvOf(e), ById, id, list) && |list| == IndexTotal(EnvOf(e), id)
  {
    hide Resolve, Sound, Ranked, EnvOf, TypeAt, IsOption, IndexTotal;
    RepoResolves(e, 0);
    RepoResolves(e, 1);
  }

  lemma RepoResolved(e: Example)
    requires e != InArgs
    ensures Sound(EnvOf(e)) && Ranked(EnvOf(e), ById) && AllResolved(EnvOf(e), ById, ParentOf(e).values)
  {
    RepoColumn(e, 0);
    RepoColumn(e, 1);
    hide Resolved, Sound, Ranked, EnvOf, TypeAt, VerifyAt, IsOption, IndexTotal;
  }

  // What else there is to a parent
  lemma RepoShape(e: Example)
    requires e != InArgs
    ensures
      var p := ParentOf(e);
      && p.env == EnvOf(e) && p.values.Keys == p.left.values.Keys == {0, 1} && p.left.t == p.env.t
      && Sized(p.left) && |p.env.maps| == 1 && p.left.maps == [[0]]
      && forall id: nat :: id < 2 <==> IsOption(p.env, id)
  {
    hide TypeAt, VerifyAt;
  }

  lemma RepoLeft(e: Example)
    requires e != InArgs
    ensures
      var p := ParentOf(e);
      && KeysLeft(p.env, p.keep, REPO) == [0]
      && forall id: nat :: id < 2 ==> p.left.values[id] == ValuesLeft(p.env, p.keep, id, p.values[id])
  {
    var p := ParentOf(e);
    if e == Second {
      assert Flags(p.keep, REPO, 2) == [false, true];
      SecondRemoves(p.values[0]);
      SecondRemoves(p.values[1]);
    } else {
      assert Flags(p.keep, REPO, 1) == [true];
      OneLeft(p.values[0]);
      OneLeft(p.values[1]);
      OneLeft<nat>([0]);
    }
    hide Compacted;
  }

  lemma OneLeft<T>(s: seq<T>)
    requires |s| == 1
    ensures Compacted(s, [true]) == s
  {
    assert Select(s, [true], 1) == [];
    assert s == [s[0]];
  }

  lemma RepoRan(e: Example)
    requires e != InArgs
    ensures Sound(EnvOf(e)) && Ranked(EnvOf(e), ById) && Ran(ParentOf(e), ById) && Parsed(EnvOf(e))
  {
    hide FindRule, Sound, Ranked, AllResolved, KeepsRight, Mapped, Parsed, KeysLeft, ValuesLeft, EnvOf, ParentOf, Sized,
      IsOption;
    RepoMapped(e);
    RepoParsed(e);
    RepoKeeps(e);
    RepoResolved(e);
    RepoLeft(e);
    RepoShape(e);
  }

  lemma RepoNameFits(id: nat, prefix: Prefix)
    requires id < 2
    ensures WellFormed(TABLES) && NameFits(TABLES, id, 0, prefix)
  {
    TablesFormed();
    hide WellFormed;
    assert |Digits(1)| == 1;
    assert |REPO_TYPE.name| == 9 && |VERIFY_TLS.name| == 23;
  }

  lemma RepoReady(e: Example)
    requires e != InArgs
    ensures Ready(ParentOf(e).left)
  {
    hide WellFormed, NameFits;
    RepoShape(e);
    TablesFormed();
    forall id: nat, idx: nat | id < 2 && idx < |ParentOf(e).left.values[id]|
      ensures Fit(TABLES, id, 0, ParentOf(e).left.values[id][idx])
    {
      RepoNameFits(id, PrefixOf(ParentOf(e).left.values[id][idx]));
    }
  }

  // What the parent of one repository prints
  lemma RepoPrints()
    ensures
      var c := ParentOf(InFile).left;
      && Sized(c)
      && (forall id: nat, j: nat :: Prints(c, id, j) <==> id < 2 && j == 0)
      && (forall id: nat :: id < 2 ==> KeyAt(c, id, 0) == 0)
      && ChildValue(c.values[0][0]) == FoundText("posix", FromParam) && ChildValue(c.values[1][0]) == FoundNo(FromParam)
  {
  }

  lemma TwoFound(found: map<(nat, nat), ParseValue>, a: ParseValue, b: ParseValue)
    requires forall id: nat, k: nat :: (id, k) in found <==> id < 2 && k == 0
    requires found[(0, 0)] == a && found[(1, 0)] == b
    ensures Lists(found, [[a], [b]])
  {
    assert (0, 0) in found && (1, 0) in found;
  }

  // It is what the child of the example finds
  lemma RepoFound(line: Line)
    requires
      var c := ParentOf(InFile).left;
      && Sized(c)
      && (forall id: nat, idx: nat :: Prints(c, id, idx) ==>
            (id, KeyAt(c, id, idx)) in line.found
            && line.found[(id, KeyAt(c, id, idx))] == ChildValue(c.values[id][idx]))
      && (forall id: nat, k: nat :: (id, k) in line.found ==> exists idx: nat ::
            Prints(c, id, idx) && KeyAt(c, id, idx) == k)
    ensures Lists(line.found, EnvOf(InArgs).found)
  {
    hide ParentOf, Prints, KeyAt, Sized, ChildValue;
    RepoPrints();
    var c := ParentOf(InFile).left;
    assert Prints(c, 0, 0) && Prints(c, 1, 0);
    TwoFound(line.found, FoundText("posix", FromParam), FoundNo(FromParam));
  }

  lemma RepoStarted()
    ensures Started(ParentOf(InFile), 0, Main, EnvOf(InArgs))
  {
    hide Ready, OptionArgs, ParseFrom, Lists, Prints, KeyAt, Sized, ChildValue;
    var p := ParentOf(InFile);
    RepoReady(InFile);
    var line := ExecRoundTrip(p.left, 0, Main);
    RepoPrints();
    RepoFound(line);
  }

  lemma RepoPasses(e: Example, id: nat)
    requires e != InArgs && id < 2
    ensures |ParentOf(e).left.child| == 2 && Passed(ParentOf(e).left, id) && !EnvOf(e).t.options[id].beta
  {
    hide TypeAt, VerifyAt;
  }

  lemma RepoCovered(e: Example)
    requires e != InArgs
    ensures Sized(ParentOf(e).left) && Covered(ParentOf(e), {0, 1})
  {
    hide FindRule, Printed, ParentOf, EnvOf, Sized;
    RepoShape(e);
    RepoRanked(e);
    RepoRules(EnvOf(e));
    RepoPasses(e, 0);
    RepoPasses(e, 1);
  }

  // A negation in vain is passed on: for a repository that is not in an object store, whose certificates a file says
  // not to check, the parent has a value for every index, and the child refuses what is printed
  lemma NegatedInVainOccurs()
    ensures Sound(EnvOf(InFile)) && Ranked(EnvOf(InFile), ById) && Ran(ParentOf(InFile), ById)
    ensures Parsed(EnvOf(InFile)) && Started(ParentOf(InFile), 0, Main, EnvOf(InArgs))
    ensures Sized(ParentOf(InFile).left) && Covered(ParentOf(InFile), {0, 1})
    ensures Sound(EnvOf(InArgs)) && Ranked(EnvOf(InArgs), ById) && Mapped(EnvOf(InArgs))
    ensures IsOption(EnvOf(InArgs), 1) && IndexTotal(EnvOf(InArgs), 1) == 1
    ensures Resolve(EnvOf(InArgs), ById, 1, 0) == Err(DependInvalid)
  {
    hide Resolve, Sound, Ranked, Started, Ran, Parsed, Mapped, Covered, Sized;
    RepoCovered(InFile);
    RepoRan(InFile);
    RepoStarted();
    RepoMapped(InArgs);
    RepoResolves(InArgs, 0);
  }

  lemma SecondInVain(idx: nat)
    requires idx < 2
    ensures Sound(EnvOf(Second)) && Ranked(EnvOf(Second), ById)
    ensures IsOption(EnvOf(Second), 1) && IndexTotal(EnvOf(Second), 1) == 2
    ensures NothingInVain(EnvOf(Second), ById, 1, idx) <==> idx == 1
  {
    RepoResolves(Second, idx);
    RepoRules(EnvOf(Second));
    hide Resolve, Sound, Ranked, FindRule, DependOf;
    assert NothingInVain(EnvOf(Second), ById, 0, idx);
  }

  lemma SecondSurvives()
    ensures Sound(EnvOf(Second)) && IsOption(EnvOf(Second), 1)
    ensures Surviving(EnvOf(Second), ParentOf(Second).keep, 1) == [1]
  {
    RepoRanked(Second);
    RepoRules(EnvOf(Second));
    hide Sound, Ranked, FindRule, Compacted;
    SecondRemoves<nat>([0, 1]);
    assert Flags(ParentOf(Second).keep, REPO, 2) == [false, true] && Indexes(2) == [0, 1];
  }

  // Or it is not: of two repositories the first has nothing but such a negation, and phase 6 drops it
  lemma NegatedInVainDropped()
    ensures Sound(EnvOf(Second)) && Ranked(EnvOf(Second), ById) && Ran(ParentOf(Second), ById)
    ensures IsOption(EnvOf(Second), 1) && IndexTotal(EnvOf(Second), 1) == 2
    ensures !NothingInVain(EnvOf(Second), ById, 1, 0) && Printed(ParentOf(Second).values[1][0])
    ensures Surviving(EnvOf(Second), ParentOf(Second).keep, 1) == [1] && NothingInVain(EnvOf(Second), ById, 1, 1)
    ensures !Printed(ParentOf(Second).left.values[1][0])
  {
    hide Resolve, Sound, Ranked, Ran, NothingInVain, Surviving, IndexTotal, EnvOf, IsOption;
    RepoRan(Second);
    SecondInVain(0);
    SecondInVain(1);
    SecondSurvives();
  }
}
