// What phase 5 makes of a value: every error exactly where it is due, and the value otherwise, in terms of the rules of
// the option, the text it was given and the option it depends on.
module ParseResolveLaws {
  import opened Options
  import opened ParseRules
  import opened ParseCursor
  import opened ParseIndex
  import opened ParseResolve
  import opened Strings

  // ---- the rules of an option

  ghost predicate Packed(env: Env, id: nat) {
    IsOption(env, id) && forall g :: g in env.t.options[id].pack ==> AscendingRules(g)
  }

  ghost predicate Has(env: Env, id: nat, r: Rule)
    requires IsOption(env, id)
  {
    Ruled(env.t.options[id].pack, env.command, r)
  }

  lemma Finds(env: Env, id: nat, kind: nat, r: Rule)
    requires Packed(env, id)
    ensures FindRule(Groups(env, id), env.command, kind) == Some(r) <==> Has(env, id, r) && TypeOf(r) == kind
  {
    hide FindRule, Ruled;
    FindRuleIs(Groups(env, id), env.command, kind, r);
  }

  // The value of an option allows what depends on it
  ghost predicate Allows(d: Depend, on: OptionValue) {
    && on.isSet
    && (d.list.Booleans? ==> |d.list.booleans| > 0 && on.value == BoolValue(d.list.booleans[|d.list.booleans| - 1]))
    && (d.list.Ids? ==> on.value.IdValue? && on.value.id in d.list.ids)
  }

  ghost predicate Unmet(env: Env, id: nat, on: Option<OptionValue>)
    requires IsOption(env, id)
  {
    exists d :: Has(env, id, Valid(d)) && (on.Some? ==> !Allows(d, on.value))
  }

  predicate Supplied(env: Env, id: nat, v: ParseValue)
    requires IsOption(env, id)
  {
    v.found && !v.reset && (env.t.options[id].kind == Boolean || !v.negate)
  }

  // The option is a beta feature that was not allowed
  predicate BetaOff(env: Env, id: nat)
    requires IsOption(env, id)
  {
    && env.t.options[id].beta && id != env.beta
    && (env.beta < |env.found| && env.found[env.beta] != [] ==> env.found[env.beta][0].negate)
  }

  // What Evaluate needs, said with these
  ghost predicate Usable(env: Env, id: nat, v: ParseValue, on: Option<OptionValue>) {
    && Packed(env, id) && (Supplied(env, id, v) && env.t.options[id].kind != Boolean ==> |v.values| > 0)
    && ((exists d :: Has(env, id, Valid(d))) ==> on.Some?)
  }

  lemma DependIs(env: Env, id: nat, d: Depend)
    requires Packed(env, id)
    ensures DependOf(env, id) == Some(d) <==> Has(env, id, Valid(d))
  {
    hide FindRule, Has;
    Finds(env, id, 1, Valid(d));
  }

  lemma MeetsIs(d: Depend, on: OptionValue)
    ensures Meets(d, on) <==> Allows(d, on)
  {
    if d.list.Ids? && on.value.IdValue? {
      assert on.value.id in d.list.ids <==> exists id :: id in d.list.ids && on.value == IdValue(id);
    }
  }

  lemma UnmetIs(env: Env, id: nat, v: ParseValue, on: Option<OptionValue>)
    requires Usable(env, id, v, on)
    ensures DependOf(env, id).Some? ==> on.Some?
    ensures Unmet(env, id, on) <==> DependOf(env, id).Some? && !Meets(DependOf(env, id).value, on.value)
  {
    hide FindRule, Has, DependOf, Meets, Allows;
    var found := DependOf(env, id);
    if found.Some? {
      DependIs(env, id, found.value);
      MeetsIs(found.value, on.value);
    }
    if d :| Has(env, id, Valid(d)) && (on.Some? ==> !Allows(d, on.value)) {
      DependIs(env, id, d);
    }
  }

  // ---- the text of a single value

  // What a text is read as; that of a number must be in range, and all must be listed where there is a list
  ghost predicate Reads(env: Env, kind: OptionType, s: string, w: Value) {
    match kind
    case Integer => env.number(kind, s).Some? && w == IntValue(env.number(kind, s).value)
    case Size => env.number(kind, s).Some? && w == IntValue(env.number(kind, s).value)
    case Time => env.number(kind, s).Some? && w == IntValue(env.number(kind, s).value)
    case StringId => w == IdValue(env.identifier(s))
    case Path => PathText(s) && w == TextValue(if |s| > 1 && s[|s| - 1] == '/' then s[..|s| - 1] else s)
    case String => s != "" && w == TextValue(s)
    case _ => false
  }

  ghost predicate PathText(s: string) {
    s != "" && s[0] == '/' && forall i :: 0 <= i < |s| - 1 ==> !(s[i] == '/' && s[i + 1] == '/')
  }

  ghost predicate Outside(env: Env, id: nat, w: Value)
    requires IsOption(env, id)
  {
    w.IntValue? && exists min, max :: Has(env, id, AllowRange(min, max)) && !(min <= w.integer <= max)
  }

  // The first entry of a list with the value
  ghost predicate Entry(values: seq<Allowed>, w: Value, i: nat) {
    i < |values| && values[i].value == w && forall j: nat :: j < i ==> values[j].value != w
  }

  ghost predicate Unlisted(values: seq<Allowed>, w: Value) {
    forall i: nat :: i < |values| ==> values[i].value != w
  }

  // A text is refused
  ghost predicate Refused(env: Env, id: nat, s: string, error: ResolveError)
    requires IsOption(env, id)
  {
    var kind := env.t.options[id].kind;
    match error
    case ValueInvalid => kind in {Integer, Size, Time} && env.number(kind, s).None?
    case EmptyValue => kind in {Path, String} && s == ""
    case PathInvalid => kind == Path && s != "" && !PathText(s)
    case OutOfRange => exists w :: Reads(env, kind, s, w) && Outside(env, id, w)
    case NotAllowed =>
      exists w, values: seq<Allowed> ::
        Reads(env, kind, s, w) && !Outside(env, id, w) && Has(env, id, AllowList(values)) && Unlisted(values, w)
    case NotBuilt =>
      exists w, values: seq<Allowed>, i: nat ::
        && Reads(env, kind, s, w) && !Outside(env, id, w)
        && Has(env, id, AllowList(values)) && Entry(values, w, i) && !values[i].built
    case _ => false
  }

  // A text is taken for a value
  ghost predicate Taken(env: Env, id: nat, s: string, w: Value)
    requires IsOption(env, id)
  {
    && Reads(env, env.t.options[id].kind, s, w) && !Outside(env, id, w)
    && forall values: seq<Allowed> :: Has(env, id, AllowList(values)) ==>
         exists i: nat :: Entry(values, w, i) && values[i].built
  }

  lemma PathIs(s: string)
    ensures PathOf(s) == if s == "" then Bad(EmptyValue) else if !PathText(s) then Bad(PathInvalid)
                         else Good(TextValue(if |s| > 1 && s[|s| - 1] == '/' then s[..|s| - 1] else s))
    ensures PathText(s) ==> s != ""
  {
  }

  lemma RangeIs(env: Env, id: nat, n: int)
    requires Packed(env, id)
    ensures Outside(env, id, IntValue(n)) <==>
            match FindRule(Groups(env, id), env.command, 2)
            case Some(AllowRange(min, max)) => n < min || n > max
            case _ => false
  {
    hide FindRule, Has;
    var found := FindRule(Groups(env, id), env.command, 2);
    if found.Some? {
      Finds(env, id, 2, found.value);
    }
    if min, max :| Has(env, id, AllowRange(min, max)) && !(min <= n <= max) {
      Finds(env, id, 2, AllowRange(min, max));
    }
  }

  // A text before the list is looked at
  lemma SingleIs(env: Env, id: nat, s: string, w: Value)
    requires Packed(env, id) && env.t.options[id].kind !in {Boolean, Hash, List}
    ensures Single(env, id, s) == Good(w) <==> Reads(env, env.t.options[id].kind, s, w) && !Outside(env, id, w)
    ensures Single(env, id, s).Bad? ==>
              Single(env, id, s).error in {ValueInvalid, OutOfRange, EmptyValue, PathInvalid}
    ensures forall error :: error in {ValueInvalid, OutOfRange, EmptyValue, PathInvalid} ==>
              (Single(env, id, s) == Bad(error) <==> Refused(env, id, s, error))
  {
    hide FindRule, PathOf, PathText, Has;
    var kind := Kind(env, id);
    PathIs(s);
    if Numeric(kind) && env.number(kind, s).Some? {
      var n := env.number(kind, s).value;
      RangeIs(env, id, n);
      assert Reads(env, kind, s, IntValue(n));
    }
  }

  lemma {:induction false} AllowedIs(values: seq<Allowed>, w: Value)
    ensures AllowedAt(values, w) == Good(w) <==> exists i: nat :: Entry(values, w, i) && values[i].built
    ensures AllowedAt(values, w) == Bad(NotBuilt) <==> exists i: nat :: Entry(values, w, i) && !values[i].built
    ensures AllowedAt(values, w) == Bad(NotAllowed) <==> Unlisted(values, w)
    ensures AllowedAt(values, w) in {Good(w), Bad(NotBuilt), Bad(NotAllowed)}
    decreases |values|
  {
    if values != [] {
      AllowedIs(values[1..], w);
    }
  }

  // The list that applies, if there is one
  lemma ListIs(env: Env, id: nat)
    requires Packed(env, id)
    ensures forall values: seq<Allowed> ::
              Has(env, id, AllowList(values)) <==> FindRule(Groups(env, id), env.command, 3) == Some(AllowList(values))
  {
    hide FindRule, Has;
    forall values: seq<Allowed>
      ensures Has(env, id, AllowList(values)) <==> FindRule(Groups(env, id), env.command, 3) == Some(AllowList(values))
    {
      Finds(env, id, 3, AllowList(values));
    }
  }

  // A text is converted to the value it is taken for
  lemma TextTaken(env: Env, id: nat, v: ParseValue, w: Value)
    requires Packed(env, id) && env.t.options[id].kind !in {Boolean, Hash, List} && |v.values| > 0
    ensures Convert(env, id, v) == Good(w) <==> Taken(env, id, v.values[0], w)
  {
    hide FindRule, Single, Has, Reads, Outside, AllowedAt, Entry, Unlisted;
    var s := v.values[0];
    var found := FindRule(Groups(env, id), env.command, 3);
    ListIs(env, id);
    SingleIs(env, id, s, w);
    if found.Some? && found.value.AllowList? && Single(env, id, s).Good? {
      AllowedIs(found.value.values, Single(env, id, s).value);
      assert Has(env, id, AllowList(found.value.values));
    }
  }

  // And refused exactly for the reasons above
  lemma TextRefused(env: Env, id: nat, v: ParseValue, error: ResolveError)
    requires Packed(env, id) && env.t.options[id].kind !in {Boolean, Hash, List} && |v.values| > 0
    ensures Convert(env, id, v) == Bad(error) <==> Refused(env, id, v.values[0], error)
  {
    hide FindRule, Single, Has, Reads, Outside, AllowedAt, Entry, Unlisted, PathText;
    var s := v.values[0];
    var found := FindRule(Groups(env, id), env.command, 3);
    ListIs(env, id);
    SinglesAre(env, id, s);
    var single := Single(env, id, s);
    if found.Some? && found.value.AllowList? && single.Good? {
      AllowedIs(found.value.values, single.value);
      assert Has(env, id, AllowList(found.value.values));
    }
  }

  lemma SinglesAre(env: Env, id: nat, s: string)
    requires Packed(env, id) && env.t.options[id].kind !in {Boolean, Hash, List}
    ensures forall w :: Single(env, id, s) == Good(w) <==>
                        Reads(env, env.t.options[id].kind, s, w) && !Outside(env, id, w)
    ensures Single(env, id, s).Bad? ==> Single(env, id, s).error in {ValueInvalid, OutOfRange, EmptyValue, PathInvalid}
    ensures forall error :: error in {ValueInvalid, OutOfRange, EmptyValue, PathInvalid} ==>
              (Single(env, id, s) == Bad(error) <==> Refused(env, id, s, error))
  {
    hide Single, Reads, Outside, Refused;
    forall w: Value
      ensures Single(env, id, s) == Good(w) <==> Reads(env, env.t.options[id].kind, s, w) && !Outside(env, id, w)
    {
      SingleIs(env, id, s, w);
    }
    SingleIs(env, id, s, NoValue);
  }

  // ---- the pairs of a hash

  // The text is the last of those with the key
  ghost predicate Last(values: seq<string>, key: string, value: string, i: nat) {
    && i < |values| && values[i] == key + "=" + value
    && forall j: nat, x: string :: i < j < |values| ==> values[j] != key + "=" + x
  }

  lemma PairIs(s: string, key: string, value: string)
    ensures Pair(s) == Some((key, value)) <==> s == key + "=" + value && '=' !in key
    ensures Pair(s) == None <==> '=' !in s
  {
    var at := Find(s, '=', 0);
    if at < |s| {
      assert s == s[..at] + "=" + s[at + 1..];
    }
    if s == key + "=" + value && '=' !in key {
      assert forall k :: 0 <= k < |key| ==> s[k] == key[k];
      FindIs(s, '=', 0, |key|);
      assert s[..|key|] == key && s[|key| + 1..] == value;
    }
  }

  // The pairs of a hash as they are kept: keys without "=", each of them once
  ghost predicate Keyed(pairs: seq<(string, string)>) {
    && (forall i :: 0 <= i < |pairs| ==> '=' !in pairs[i].0)
    && (forall i, j :: 0 <= i < j < |pairs| ==> pairs[i].0 != pairs[j].0)
  }

  lemma {:induction false} PutKeyed(pairs: seq<(string, string)>, p: (string, string))
    requires Keyed(pairs) && '=' !in p.0
    ensures Keyed(Put(pairs, p))
    ensures forall q :: q in Put(pairs, p) ==> q == p || q in pairs
    decreases |pairs|
  {
    if pairs != [] {
      assert Keyed(pairs[1..]);
      PutKeyed(pairs[1..], p);
      var r := Put(pairs, p);
      if pairs[0].0 != p.0 {
        forall i | 1 <= i < |r|
          ensures r[i].0 != r[0].0
        {
          assert r[i] in Put(pairs[1..], p);
          if r[i] in pairs[1..] {
            var j :| 1 <= j < |pairs| && pairs[j] == r[i];
          }
        }
      }
    }
  }

  lemma {:induction false} HashedKeyed(pairs: seq<(string, string)>, values: seq<string>)
    requires Keyed(pairs)
    ensures Hashed(pairs, values).Good? ==>
              Hashed(pairs, values).value.HashValue? && Keyed(Hashed(pairs, values).value.pairs)
    decreases |values|
  {
    if values != [] && Pair(values[0]).Some? {
      var p := Pair(values[0]).value;
      var at := Find(values[0], '=', 0);
      assert forall k :: 0 <= k < at ==> p.0[k] != '=';
      PutKeyed(pairs, p);
      HashedKeyed(Put(pairs, p), values[1..]);
    }
  }

  lemma {:induction false} PutIs(pairs: seq<(string, string)>, p: (string, string), q: (string, string))
    requires Keyed(pairs)
    ensures q in Put(pairs, p) <==> q == p || (q in pairs && q.0 != p.0)
    decreases |pairs|
  {
    if pairs != [] {
      assert Keyed(pairs[1..]);
      PutIs(pairs[1..], p, q);
      assert pairs == [pairs[0]] + pairs[1..];
    }
  }

  // No text has the key
  ghost predicate Absent(values: seq<string>, key: string) {
    forall i: nat, x: string :: i < |values| ==> values[i] != key + "=" + x
  }

  lemma LastNext(values: seq<string>, key: string, value: string)
    requires values != [] && '=' !in key
    ensures
      (exists i: nat :: Last(values, key, value, i)) <==>
      (exists i: nat :: Last(values[1..], key, value, i))
      || (values[0] == key + "=" + value && Absent(values[1..], key))
    ensures Absent(values, key) <==> Absent(values[1..], key) && forall x :: values[0] != key + "=" + x
  {
    if i: nat :| Last(values, key, value, i) {
      if i > 0 {
        assert Last(values[1..], key, value, i - 1);
      }
    }
    if i: nat :| Last(values[1..], key, value, i) {
      assert Last(values, key, value, i + 1);
    }
    if values[0] == key + "=" + value && Absent(values[1..], key) {
      assert Last(values, key, value, 0);
    }
  }

  lemma NoneLast(key: string, value: string)
    ensures !(exists i: nat :: Last([], key, value, i)) && Absent([], key)
  {
  }

  lemma OtherKey(s: string, p: (string, string), key: string, value: string)
    requires Pair(s) == Some(p) && '=' !in key
    ensures '=' !in p.0
    ensures s == key + "=" + value <==> p == (key, value)
    ensures (forall x: string :: s != key + "=" + x) <==> p.0 != key
  {
    hide Pair;
    PairIs(s, p.0, p.1);
    PairIs(s, key, value);
    forall x: string
      ensures s == key + "=" + x <==> p == (key, x)
    {
      PairIs(s, key, x);
    }
    if p.0 == key {
      assert s == key + "=" + p.1;
    }
  }

  lemma {:induction false} PairsAre(pairs: seq<(string, string)>, values: seq<string>, key: string, value: string)
    requires Keyed(pairs) && '=' !in key
    ensures Hashed(pairs, values).Good? ==> Hashed(pairs, values).value.HashValue?
    ensures Hashed(pairs, values).Good? ==>
              ((key, value) in Hashed(pairs, values).value.pairs <==>
               (exists i: nat :: Last(values, key, value, i)) || ((key, value) in pairs && Absent(values, key)))
    decreases |values|
  {
    hide Last, Absent, Keyed, Pair;
    if values == [] {
      NoneLast(key, value);
    } else if Pair(values[0]).Some? {
      var p := Pair(values[0]).value;
      OtherKey(values[0], p, key, value);
      PutKeyed(pairs, p);
      PutIs(pairs, p, (key, value));
      PairsAre(Put(pairs, p), values[1..], key, value);
      LastNext(values, key, value);
    }
  }

  lemma {:induction false} HashRefused(pairs: seq<(string, string)>, values: seq<string>)
    ensures Hashed(pairs, values).Bad? ==> Hashed(pairs, values).error == PairInvalid
    ensures Hashed(pairs, values).Bad? <==> exists s :: s in values && '=' !in s
    decreases |values|
  {
    if values != [] {
      PairIs(values[0], "", "");
      if Pair(values[0]).Some? {
        HashRefused(Put(pairs, Pair(values[0]).value), values[1..]);
      }
    }
  }

  // A hash has exactly the last value given for each key, each key once; a text without "=" is refused
  lemma HashExactly(values: seq<string>)
    ensures Hashed([], values) == Bad(PairInvalid) <==> exists s :: s in values && '=' !in s
    ensures Hashed([], values).Good? ==> Hashed([], values).value.HashValue? && Keyed(Hashed([], values).value.pairs)
    ensures Hashed([], values).Good? ==> forall key, value ::
              (key, value) in Hashed([], values).value.pairs <==>
              '=' !in key && exists i: nat :: Last(values, key, value, i)
  {
    hide Last;
    HashRefused([], values);
    HashedKeyed([], values);
    if Hashed([], values).Good? {
      forall key, value
        ensures (key, value) in Hashed([], values).value.pairs <==>
                '=' !in key && exists i: nat :: Last(values, key, value, i)
      {
        if '=' !in key {
          PairsAre([], values, key, value);
        } else {
          assert forall p :: p in Hashed([], values).value.pairs ==> '=' !in p.0;
        }
      }
    }
  }

  // ---- the value of an index

  // Whether the text of an option is looked at at all
  ghost predicate Reached(env: Env, id: nat, v: ParseValue, on: Option<OptionValue>)
    requires IsOption(env, id)
  {
    !Unmet(env, id, on) && Supplied(env, id, v) && !BetaOff(env, id)
  }

  // The reasons for an error. A missing option is one only when it is required, by its own rule or against it by one
  // for the command, and neither negated, nor with a default, nor asked for help on.
  ghost predicate Due(env: Env, id: nat, v: ParseValue, on: Option<OptionValue>, error: ResolveError)
    requires Usable(env, id, v, on)
  {
    var kind := env.t.options[id].kind;
    match error
    case DependInvalid => Unmet(env, id, on) && Supplied(env, id, v) && v.source == FromParam
    case BetaRequired => !Unmet(env, id, on) && Supplied(env, id, v) && BetaOff(env, id)
    case RequiredMissing =>
      && !Unmet(env, id, on) && !Supplied(env, id, v) && !v.negate && !env.help
      && (forall value :: !Has(env, id, Default(value))) && env.t.options[id].required != Has(env, id, Required)
    case PairInvalid => Reached(env, id, v, on) && kind == Hash && exists s :: s in v.values && '=' !in s
    case _ => Reached(env, id, v, on) && kind !in {Boolean, Hash, List} && Refused(env, id, v.values[0], error)
  }

  // What a value that is set is converted to
  ghost predicate Converts(env: Env, id: nat, v: ParseValue, value: Value)
    requires IsOption(env, id) && (env.t.options[id].kind != Boolean ==> |v.values| > 0)
  {
    match env.t.options[id].kind
    case Boolean => value == BoolValue(!v.negate)
    case Hash => Hashed([], v.values) == Good(value)
    case List => value == ListValue(v.values)
    case _ => Taken(env, id, v.values[0], value)
  }

  // The value when there is no error
  ghost predicate Comes(env: Env, id: nat, v: ParseValue, on: Option<OptionValue>, w: OptionValue)
    requires Usable(env, id, v, on)
  {
    && w.negate == v.negate && w.reset == v.reset
    && if Unmet(env, id, on) then
         && !(Supplied(env, id, v) && v.source == FromParam) && w.source == FromDefault && w.display == ""
         && exists d ::
              && Has(env, id, Valid(d)) && w.isSet == d.default.Some?
              && w.value == if d.default.Some? then BoolValue(d.default.value) else NoValue
       else if Supplied(env, id, v) then
         && !BetaOff(env, id) && w.isSet && w.source == v.source && Converts(env, id, v, w.value)
         && w.display == if env.t.options[id].kind in {Boolean, Hash, List} then "" else v.values[0]
       else
         && w.display == "" && w.source == (if v.negate then v.source else FromDefault)
         && if !v.negate && w.isSet then Has(env, id, Default(w.value))
            else
              && !w.isSet && w.value == NoValue
              && (v.negate
                  || ((forall value :: !Has(env, id, Default(value))) && !Due(env, id, v, on, RequiredMissing)))
  }

  lemma ConvertIs(env: Env, id: nat, v: ParseValue, value: Value, error: ResolveError)
    requires Packed(env, id) && (env.t.options[id].kind != Boolean ==> |v.values| > 0)
    ensures Convert(env, id, v) == Good(value) <==> Converts(env, id, v, value)
    ensures
      Convert(env, id, v) == Bad(error) <==>
      match env.t.options[id].kind
      case Boolean => false
      case Hash => error == PairInvalid && exists s :: s in v.values && '=' !in s
      case List => false
      case _ => Refused(env, id, v.values[0], error)
  {
    var kind := env.t.options[id].kind;
    if kind !in {Boolean, Hash, List} {
      TextTaken(env, id, v, value);
      TextRefused(env, id, v, error);
    } else if kind == Hash {
      HashRefused([], v.values);
    }
    hide FindRule, Refused, Taken, Hashed, Single;
  }

  lemma RefusedErrors(env: Env, id: nat, s: string, error: ResolveError)
    requires IsOption(env, id) && Refused(env, id, s, error)
    ensures error in {ValueInvalid, EmptyValue, PathInvalid, OutOfRange, NotAllowed, NotBuilt}
  {
  }

  // The default that applies, and whether the option is required
  lemma DefaultIs(env: Env, id: nat)
    requires Packed(env, id)
    ensures forall value :: Has(env, id, Default(value)) <==>
                            FindRule(Groups(env, id), env.command, 4) == Some(Default(value))
    ensures Has(env, id, Required) <==> FindRule(Groups(env, id), env.command, 5) == Some(Required)
    ensures FindRule(Groups(env, id), env.command, 4).Some? ==>
              FindRule(Groups(env, id), env.command, 4).value.Default?
    ensures FindRule(Groups(env, id), env.command, 5).Some? ==>
              FindRule(Groups(env, id), env.command, 5).value == Required
  {
    hide FindRule, Has;
    forall value
      ensures Has(env, id, Default(value)) <==> FindRule(Groups(env, id), env.command, 4) == Some(Default(value))
    {
      Finds(env, id, 4, Default(value));
    }
    Finds(env, id, 5, Required);
    if FindRule(Groups(env, id), env.command, 4).Some? {
      Finds(env, id, 4, FindRule(Groups(env, id), env.command, 4).value);
    }
    if FindRule(Groups(env, id), env.command, 5).Some? {
      Finds(env, id, 5, FindRule(Groups(env, id), env.command, 5).value);
    }
  }

  lemma DependsAre(env: Env, id: nat)
    requires Packed(env, id)
    ensures forall d :: Has(env, id, Valid(d)) <==> DependOf(env, id) == Some(d)
  {
    hide FindRule, Has, DependOf;
    forall d
      ensures Has(env, id, Valid(d)) <==> DependOf(env, id) == Some(d)
    {
      DependIs(env, id, d);
    }
  }

  lemma UsableIs(env: Env, id: nat, v: ParseValue, on: Option<OptionValue>)
    requires Usable(env, id, v, on)
    ensures IsSet(env, id, v) <==> Supplied(env, id, v)
    ensures IsSet(env, id, v) && Kind(env, id) != Boolean ==> |v.values| > 0
    ensures DependOf(env, id).Some? ==> on.Some?
    ensures BetaMissing(env, id) <==> BetaOff(env, id)
  {
    UnmetIs(env, id, v, on);
    hide Has, FindRule, Unmet;
  }

  // Every error exactly where it is due
  lemma ErrorExactly(env: Env, id: nat, v: ParseValue, on: Option<OptionValue>, error: ResolveError)
    requires Usable(env, id, v, on)
    ensures IsSet(env, id, v) && Kind(env, id) != Boolean ==> |v.values| > 0
    ensures DependOf(env, id).Some? ==> on.Some?
    ensures Evaluate(env, id, v, on) == Err(error) <==> Due(env, id, v, on, error)
  {
    hide FindRule, DependOf, Meets, BetaMissing, Has, Unmet, BetaOff, Convert, Refused, Supplied, IsSet;
    UsableIs(env, id, v, on);
    UnmetIs(env, id, v, on);
    DefaultIs(env, id);
    if Supplied(env, id, v) {
      ConvertIs(env, id, v, NoValue, error);
      if |v.values| > 0 && Refused(env, id, v.values[0], error) {
        RefusedErrors(env, id, v.values[0], error);
      }
    }
  }

  // And the value otherwise
  lemma ValueExactly(env: Env, id: nat, v: ParseValue, on: Option<OptionValue>, w: OptionValue)
    requires Usable(env, id, v, on)
    ensures IsSet(env, id, v) && Kind(env, id) != Boolean ==> |v.values| > 0
    ensures DependOf(env, id).Some? ==> on.Some?
    ensures Evaluate(env, id, v, on) == Ok(w) <==> Comes(env, id, v, on, w)
  {
    hide FindRule, DependOf, Meets, BetaMissing, Has, Unmet, BetaOff, Convert, Converts, Supplied, IsSet;
    UsableIs(env, id, v, on);
    UnmetIs(env, id, v, on);
    DefaultIs(env, id);
    DependsAre(env, id);
    if Supplied(env, id, v) {
      ConvertIs(env, id, v, w.value, DependInvalid);
    }
  }

  // ---- a whole option

  // What was found for an index: what is in the list at the key of the index, or nothing
  function FoundFor(env: Env, id: nat, idx: nat): ParseValue
    requires Sound(env) && IsOption(env, id) && idx < IndexTotal(env, id)
  {
    var group := env.t.options[id].group;
    var key := if group.None? then 0 else env.maps[group.value][idx];
    if key < |env.found[id]| then env.found[id][key] else ParseValue(false, false, false, FromDefault, [])
  }

  // The option depends on another, of whose values the one at the same index counts when that is in a group, else its
  // only one
  ghost predicate DependsOn(env: Env, rank: nat -> nat, id: nat, idx: nat, r: Result)
    requires Sound(env) && Ranked(env, rank) && IsOption(env, id) && idx < IndexTotal(env, id)
  {
    exists d: Depend ::
      && Has(env, id, Valid(d)) && IsOption(env, d.id)
      && var at := if env.t.options[d.id].group == None then 0 else idx;
         at < IndexTotal(env, d.id) && r == Resolve(env, rank, d.id, at)
  }

  // The value that the index depends on, if it depends on any
  ghost predicate On(env: Env, rank: nat -> nat, id: nat, idx: nat, on: Option<OptionValue>)
    requires Sound(env) && Ranked(env, rank) && IsOption(env, id) && idx < IndexTotal(env, id)
  {
    if on.Some? then DependsOn(env, rank, id, idx, Ok(on.value)) else forall d :: !Has(env, id, Valid(d))
  }

  lemma OnIs(env: Env, rank: nat -> nat, id: nat, idx: nat)
    requires Sound(env) && Ranked(env, rank) && IsOption(env, id) && idx < IndexTotal(env, id)
    ensures DependOf(env, id).Some? ==> IsOption(env, DependOf(env, id).value.id)
    ensures
      match DependOf(env, id)
      case None => (forall d :: !Has(env, id, Valid(d))) && forall r :: !DependsOn(env, rank, id, idx, r)
      case Some(d) =>
        && Has(env, id, Valid(d))
        && forall r :: DependsOn(env, rank, id, idx, r) <==>
                       r == Resolve(env, rank, d.id, if env.t.options[d.id].group.Some? then idx else 0)
  {
    hide FindRule, Has, DependOf, Resolve;
    DependsAre(env, id);
  }

  lemma FoundUsable(env: Env, rank: nat -> nat, id: nat, idx: nat, on: Option<OptionValue>)
    requires Sound(env) && Ranked(env, rank) && IsOption(env, id) && idx < IndexTotal(env, id)
    requires On(env, rank, id, idx, on)
    ensures Usable(env, id, FoundFor(env, id, idx), on)
  {
    hide FindRule, DependOf, Resolve;
    HasValues(env, id, idx);
  }

  // An index fails to resolve exactly when the one it depends on does, or when its own value is refused
  lemma IndexRefused(env: Env, rank: nat -> nat, id: nat, idx: nat, error: ResolveError)
    requires Sound(env) && Ranked(env, rank) && IsOption(env, id) && idx < IndexTotal(env, id)
    ensures
      Resolve(env, rank, id, idx) == Err(error) <==>
      || DependsOn(env, rank, id, idx, Err(error))
      || exists on ::
           On(env, rank, id, idx, on) && Usable(env, id, FoundFor(env, id, idx), on)
           && Due(env, id, FoundFor(env, id, idx), on, error)
  {
    hide FindRule, Has, DependOf, DependsOn, Evaluate, Due, Usable;
    var v := FoundFor(env, id, idx);
    OnIs(env, rank, id, idx);
    forall on | On(env, rank, id, idx, on)
      ensures Usable(env, id, v, on) && (Evaluate(env, id, v, on) == Err(error) <==> Due(env, id, v, on, error))
    {
      FoundUsable(env, rank, id, idx, on);
      ErrorExactly(env, id, v, on, error);
    }
  }

  // Else it has the value that its own rules give it
  lemma IndexResolved(env: Env, rank: nat -> nat, id: nat, idx: nat, w: OptionValue)
    requires Sound(env) && Ranked(env, rank) && IsOption(env, id) && idx < IndexTotal(env, id)
    ensures
      Resolve(env, rank, id, idx) == Ok(w) <==>
      exists on ::
        On(env, rank, id, idx, on) && Usable(env, id, FoundFor(env, id, idx), on)
        && Comes(env, id, FoundFor(env, id, idx), on, w)
  {
    hide FindRule, Has, DependOf, DependsOn, Evaluate, Comes, Usable;
    var v := FoundFor(env, id, idx);
    OnIs(env, rank, id, idx);
    forall on | On(env, rank, id, idx, on)
      ensures Usable(env, id, v, on) && (Evaluate(env, id, v, on) == Ok(w) <==> Comes(env, id, v, on, w))
    {
      FoundUsable(env, rank, id, idx, on);
      ValueExactly(env, id, v, on, w);
    }
  }
}
