// config/parse.c: an option name on the command line, in a file or in the environment, read by cfgParseOption and
// written by cfgParseOptionKeyIdxName.
module ParseNames {
  import opened Decimals
  import opened Options
  import opened ParseRules
  import opened Strings

  datatype NameError =
    | TooLong
    | BeginsWithDash
    | BeginsWithNumber
    | KeyTooLarge
    | CannotBeNegated
    | CannotBeReset
    | CannotHaveIndex
    | RequiresIndex

  // What a name stands for; keyIdx counts from zero
  datatype Name = Name(id: nat, keyIdx: nat, negate: bool, reset: bool, deprecated: bool)

  datatype Parsed = Found(name: Name) | NotFound | Invalid(error: NameError)

  // A value as 32 unsigned bits keep it
  function Wrap(n: int): (r: nat)
    ensures r < UINT32 && (0 <= n < UINT32 ==> r == n)
  {
    n % UINT32
  }

  // ---- what cfgParseOption computes

  // Where the digits before a dash begin
  function DigitsStart(s: string, dash: nat): (r: nat)
    requires dash <= |s|
    ensures r <= dash && (forall k :: r <= k < dash ==> IsDigit(s[k])) && (r > 0 ==> !IsDigit(s[r - 1]))
  {
    if dash > 0 && IsDigit(s[dash - 1]) then DigitsStart(s, dash - 1) else dash
  }

  // The key as the loop leaves it in 32 bits
  function Key(s: string, start: nat, dash: nat): nat
    requires start <= dash <= |s| && forall k :: start <= k < dash ==> IsDigit(s[k])
  {
    Wrap(Decimal(s[start..dash]))
  }

  datatype Split = Base(name: string, indexed: bool, keyIdx: nat) | Broken(error: NameError)

  // A name without its key. Subtracting one from a key of zero wraps.
  function SplitKey(name: string): Split {
    var dash := Find(name, '-', 0);
    if dash == |name| then Base(name, false, 0)
    else if dash == 0 then Broken(BeginsWithDash)
    else
      var start := DigitsStart(name, dash);
      if start == 0 then Broken(BeginsWithNumber)
      else if start == dash then Base(name, false, 0)
      else if Key(name, start, dash) > KEY_MAX then Broken(KeyTooLarge)
      else Base(name[..start] + name[dash..], true, Wrap(Key(name, start, dash) - 1))
  }

  // The option or deprecated name that is exactly this, from index i on
  function Exact(names: seq<string>, name: string, i: nat): (r: Option<nat>)
    requires i <= |names|
    ensures r.Some? ==> i <= r.value < |names| && names[r.value] == name
    ensures r.None? ==> forall k :: i <= k < |names| ==> names[k] != name
    decreases |names| - i
  {
    if i == |names| then None else if names[i] == name then Some(i) else Exact(names, name, i + 1)
  }

  // The only name that begins with this one, if there is just one
  predicate OnlyPrefixed(names: seq<string>, name: string, i: nat) {
    i < |names| && StartsWith(names[i], name) && forall k :: 0 <= k < |names| && k != i ==> !StartsWith(names[k], name)
  }

  function Partial(names: seq<string>, name: string): (r: Option<nat>)
    ensures r.Some? ==> OnlyPrefixed(names, name, r.value)
    ensures r.None? ==> forall i :: 0 <= i < |names| ==> !OnlyPrefixed(names, name, i)
  {
    if exists i :: 0 <= i < |names| && OnlyPrefixed(names, name, i) then
      var i :| 0 <= i < |names| && OnlyPrefixed(names, name, i);
      Some(i)
    else None
  }

  function Names(t: Tables): seq<string> {
    seq(|t.options|, i requires 0 <= i < |t.options| => t.options[i].name)
  }

  function DeprecatedNames(t: Tables): seq<string> {
    seq(|t.deprecated|, i requires 0 <= i < |t.deprecated| => t.deprecated[i].name)
  }

  function Lookup(names: seq<string>, name: string, prefixMatch: bool): (r: Option<nat>)
    ensures r.Some? ==> r.value < |names|
  {
    var exact := Exact(names, name, 0);
    if exact.None? && prefixMatch then Partial(names, name) else exact
  }

  // The rules a found option must meet
  function Accept(rule: OptionRule, n: Name, indexed: bool, ignoreMissingIndex: bool): Parsed {
    var deprecated := n.deprecated || (!indexed && rule.deprecateMatch);
    if n.negate && !rule.negate then Invalid(CannotBeNegated)
    else if n.reset && !rule.reset then Invalid(CannotBeReset)
    else if !deprecated && indexed && rule.group.None? then Invalid(CannotHaveIndex)
    else if !deprecated && !indexed && rule.group.Some? && !ignoreMissingIndex then Invalid(RequiresIndex)
    else Found(n.(deprecated := deprecated))
  }

  // What is found for a name without prefix and key
  function FindOption(t: Tables, base: string, indexed: bool, keyIdx: nat, negate: bool, reset: bool,
                      prefixMatch: bool, ignoreMissingIndex: bool)
    : (r: Parsed)
    requires forall i :: 0 <= i < |t.deprecated| ==> t.deprecated[i].id < |t.options|
    ensures r.Found? ==> r.name.id < |t.options|
  {
    var option := Lookup(Names(t), base, prefixMatch);
    if option.Some? then
      Accept(t.options[option.value], Name(option.value, keyIdx, negate, reset, false), indexed, ignoreMissingIndex)
    else
      var deprecate := Lookup(DeprecatedNames(t), base, prefixMatch);
      if deprecate.None? then NotFound
      else
        var d := t.deprecated[deprecate.value];
        if indexed && !d.indexed then Invalid(CannotHaveIndex)
        else if !indexed && !d.unindexed && !ignoreMissingIndex then Invalid(RequiresIndex)
        else Accept(t.options[d.id], Name(d.id, keyIdx, negate, reset, true), indexed, ignoreMissingIndex)
  }

  // cfgParseOption
  function ReadName(t: Tables, candidate: string, prefixMatch: bool, ignoreMissingIndex: bool): (r: Parsed)
    requires forall i :: 0 <= i < |t.deprecated| ==> t.deprecated[i].id < |t.options|
    ensures r.Found? ==> r.name.id < |t.options|
  {
    if |candidate| > NAME_SIZE_MAX then Invalid(TooLong)
    else
      var negate := StartsWith(candidate, "no-");
      var reset := !negate && StartsWith(candidate, "reset-");
      var name := if negate then candidate[3..] else if reset then candidate[6..] else candidate;
      match SplitKey(name)
      case Broken(error) => Invalid(error)
      case Base(base, indexed, keyIdx) =>
        FindOption(t, base, indexed, keyIdx, negate, reset, prefixMatch, ignoreMissingIndex)
  }

  // ---- the loops

  lemma WrapSum(a: nat, b: nat)
    ensures Wrap(Wrap(a) + Wrap(b)) == Wrap(a + b)
  {
  }

  lemma WrapProduct(d: nat, p: nat)
    ensures Wrap(d * Wrap(p)) == Wrap(d * p)
  {
    var k := p / UINT32;
    assert p == k * UINT32 + Wrap(p);
    assert d * p == (d * k) * UINT32 + d * Wrap(p) by {
      assert d * (k * UINT32) == (d * k) * UINT32;
    }
    Multiple(d * Wrap(p), d * k);
  }

  lemma Multiple(a: nat, k: nat)
    ensures Wrap(k * UINT32 + a) == Wrap(a)
  {
  }

  lemma KeyStart(name: string, dash: nat)
    requires dash <= |name|
    ensures Key(name, dash, dash) == 0 && Wrap(Power(0)) == 1
  {
    assert name[dash..dash] == "";
  }

  // One more digit to the left
  lemma KeyStep(name: string, start: nat, dash: nat)
    requires 0 < start <= dash <= |name| && forall k :: start - 1 <= k < dash ==> IsDigit(name[k])
    ensures var d := name[start - 1] as int - '0' as int;
            && d >= 0
            && Key(name, start - 1, dash) == Wrap(Key(name, start, dash) + Wrap(d * Wrap(Power(dash - start))))
            && Wrap(Power(dash - start + 1)) == Wrap(10 * Wrap(Power(dash - start)))
  {
    hide Wrap, Power, Decimal;
    assert IsDigit(name[start - 1]);
    var d := name[start - 1] as int - '0' as int;
    var digits := name[start - 1..dash];
    assert digits[1..] == name[start..dash] && digits[0] == name[start - 1];
    DecimalFront(digits);
    WrapFront(d, Power(dash - start), Decimal(digits[1..]));
    NextPower(dash - start);
  }

  lemma NextPower(n: nat)
    ensures Wrap(Power(n + 1)) == Wrap(10 * Wrap(Power(n)))
  {
    assert Power(n + 1) == 10 * Power(n);
    hide Wrap, Power;
    WrapProduct(10, Power(n));
  }

  lemma WrapFront(d: nat, p: nat, rest: nat)
    ensures Wrap(d * p + rest) == Wrap(Wrap(rest) + Wrap(d * Wrap(p)))
  {
    hide Wrap;
    WrapProduct(d, p);
    WrapSum(rest, d * p);
  }

  // The digits before the dash are read backward with a multiplier, both in 32 bits
  method ReadKey(name: string, dash: nat) returns (start: nat, key: nat)
    requires dash <= |name|
    ensures start == DigitsStart(name, dash) && key == Key(name, start, dash)
  {
    hide Wrap, Key, Power;
    start, key := dash, 0;
    var multiplier := 1;
    KeyStart(name, dash);
    while start > 0 && IsDigit(name[start - 1])
      invariant start <= dash && DigitsStart(name, start) == DigitsStart(name, dash)
      invariant forall k :: start <= k < dash ==> IsDigit(name[k])
      invariant key == Key(name, start, dash)
      invariant multiplier == Wrap(Power(dash - start))
    {
      KeyStep(name, start, dash);
      start := start - 1;
      key := Wrap(key + Wrap((name[start] as int - '0' as int) * multiplier));
      multiplier := Wrap(10 * multiplier);
    }
  }

  lemma OnlyOne(names: seq<string>, name: string, i: nat, j: nat)
    requires i < |names| && j < |names| && StartsWith(names[i], name) && StartsWith(names[j], name) && i != j
    ensures Partial(names, name) == None
  {
  }

  lemma TheOne(names: seq<string>, name: string, i: nat)
    requires OnlyPrefixed(names, name, i)
    ensures Partial(names, name) == Some(i)
  {
    var k := Partial(names, name).value;
    assert OnlyPrefixed(names, name, k);
  }

  // At most one name may begin with the text; a second one ends the search
  method FindPartial(names: seq<string>, name: string) returns (r: Option<nat>)
    ensures r == Partial(names, name)
  {
    r := None;
    var i := 0;
    while i < |names|
      invariant i <= |names|
      invariant r.Some? ==> r.value < i && StartsWith(names[r.value], name)
      invariant forall k :: 0 <= k < i && r != Some(k) ==> !StartsWith(names[k], name)
    {
      if StartsWith(names[i], name) {
        if r.Some? {
          OnlyOne(names, name, r.value, i);
          return None;
        }
        r := Some(i);
      }
      i := i + 1;
    }
    if r.Some? {
      TheOne(names, name, r.value);
    }
  }

  // A search of sorted names finds the one that is equal; then perhaps the only one that begins alike
  method Search(names: seq<string>, name: string, prefixMatch: bool) returns (r: Option<nat>)
    ensures r == Lookup(names, name, prefixMatch)
  {
    r := Exact(names, name, 0);
    if r.None? && prefixMatch {
      r := FindPartial(names, name);
    }
  }

  // cfgParseOption
  method CfgParseOption(t: Tables, candidate: string, prefixMatch: bool, ignoreMissingIndex: bool) returns (r: Parsed)
    requires forall i :: 0 <= i < |t.deprecated| ==> t.deprecated[i].id < |t.options|
    ensures r == ReadName(t, candidate, prefixMatch, ignoreMissingIndex)
  {
    hide Lookup, SplitKey;
    if |candidate| > NAME_SIZE_MAX {
      return Invalid(TooLong);
    }
    var name, negate, reset := StripPrefix(candidate);
    var split := TakeKey(name);
    if split.Broken? {
      return Invalid(split.error);
    }
    r := CfgFindOption(t, split.name, split.indexed, split.keyIdx, negate, reset, prefixMatch, ignoreMissingIndex);
  }

  // The prefix of a name that negates or resets
  method StripPrefix(candidate: string) returns (name: string, negate: bool, reset: bool)
    ensures negate == StartsWith(candidate, "no-") && reset == (!negate && StartsWith(candidate, "reset-"))
    ensures name == if negate then candidate[3..] else if reset then candidate[6..] else candidate
  {
    name, negate, reset := candidate, false, false;
    if StartsWith(name, "no-") {
      negate, name := true, name[3..];
    } else if StartsWith(name, "reset-") {
      reset, name := true, name[6..];
    }
  }

  // The key before the first dash
  method TakeKey(name: string) returns (split: Split)
    ensures split == SplitKey(name)
  {
    hide DigitsStart, Key, Find, Wrap;
    var dash := Find(name, '-', 0);
    if dash == |name| {
      return Base(name, false, 0);
    }
    if dash == 0 {
      return Broken(BeginsWithDash);
    }
    var start, key := ReadKey(name, dash);
    if start == 0 {
      return Broken(BeginsWithNumber);
    }
    if start == dash {
      return Base(name, false, 0);
    }
    if key > KEY_MAX {
      return Broken(KeyTooLarge);
    }
    return Base(name[..start] + name[dash..], true, Wrap(key - 1));
  }

  // The search of cfgParseOption
  method CfgFindOption(t: Tables, base: string, indexed: bool, keyIdx: nat, negate: bool, reset: bool,
                       prefixMatch: bool, ignoreMissingIndex: bool)
    returns (r: Parsed)
    requires forall i :: 0 <= i < |t.deprecated| ==> t.deprecated[i].id < |t.options|
    ensures r == FindOption(t, base, indexed, keyIdx, negate, reset, prefixMatch, ignoreMissingIndex)
  {
    hide Lookup;
    var option := Search(Names(t), base, prefixMatch);
    if option.Some? {
      var n := Name(option.value, keyIdx, negate, reset, false);
      return Accept(t.options[option.value], n, indexed, ignoreMissingIndex);
    }
    var deprecate := Search(DeprecatedNames(t), base, prefixMatch);
    if deprecate.None? {
      return NotFound;
    }
    var d := t.deprecated[deprecate.value];
    if indexed && !d.indexed {
      return Invalid(CannotHaveIndex);
    }
    if !indexed && !d.unindexed && !ignoreMissingIndex {
      return Invalid(RequiresIndex);
    }
    return Accept(t.options[d.id], Name(d.id, keyIdx, negate, reset, true), indexed, ignoreMissingIndex);
  }

  // ---- writing a name

  // cfgParseOptionKeyIdxName
  function KeyIdxName(t: Tables, id: nat, keyIdx: nat): string
    requires id < |t.options| && (t.options[id].group.Some? ==> GroupNamed(t, t.options[id]))
  {
    var rule := t.options[id];
    if rule.group.None? then rule.name
    else
      var g := t.groups[rule.group.value];
      g + Digits(keyIdx + 1) + rule.name[|g|..]
  }

  datatype Prefix = Plain | Negate | Reset

  function PrefixText(p: Prefix): string {
    match p
    case Plain => ""
    case Negate => "no-"
    case Reset => "reset-"
  }

  // A name made of a group name, a key and a rest that begins with a dash
  lemma NameParts(g: string, key: string, rest: string)
    requires |g| > 0 && forall k :: 0 <= k < |g| ==> g[k] != '-' && !IsDigit(g[k])
    requires |key| > 0 && AllDigits(key) && |rest| > 0 && rest[0] == '-'
    ensures var name := g + key + rest; var dash := |g| + |key|;
            && Find(name, '-', 0) == dash && DigitsStart(name, dash) == |g|
            && name[|g|..dash] == key && name[..|g|] + name[dash..] == g + rest
  {
    var name, dash := g + key + rest, |g| + |key|;
    assert forall k :: 0 <= k < |g| ==> name[k] == g[k];
    assert forall k :: |g| <= k < dash ==> name[k] == key[k - |g|];
    FindIs(name, '-', 0, dash);
    DigitsStartIs(name, dash, |g|);
  }

  // Where the first dash is after a prefix
  lemma PrefixDash(name: string, word: string)
    requires |word| > 0 && (forall k :: 0 <= k < |word| ==> word[k] != '-') && StartsWith(name, word + "-")
    ensures Find(name, '-', 0) == |word| && name[|word| - 1] == word[|word| - 1]
  {
    var prefix := word + "-";
    assert forall k :: 0 <= k < |prefix| ==> name[k] == name[..|prefix|][k];
    FindIs(name, '-', 0, |word|);
  }

  // The character before the first dash of such a name is a digit, which no prefix has there
  lemma NoPrefix(name: string, dash: nat)
    requires 0 < dash < |name| && Find(name, '-', 0) == dash && IsDigit(name[dash - 1])
    ensures !StartsWith(name, "no-") && !StartsWith(name, "reset-")
  {
    assert "no" + "-" == "no-" && "reset" + "-" == "reset-";
    if StartsWith(name, "no" + "-") {
      PrefixDash(name, "no");
    }
    if StartsWith(name, "reset" + "-") {
      PrefixDash(name, "reset");
    }
  }

  // The key is found between the group name and the rest of the option name
  lemma SplitGrouped(t: Tables, id: nat, keyIdx: nat)
    requires WellFormed(t) && id < |t.options| && t.options[id].group.Some? && keyIdx < KEY_MAX
    ensures SplitKey(KeyIdxName(t, id, keyIdx)) == Base(t.options[id].name, true, keyIdx)
    ensures var name := KeyIdxName(t, id, keyIdx); !StartsWith(name, "no-") && !StartsWith(name, "reset-")
  {
    hide Find, DigitsStart, Digits, Decimal;
    var rule := t.options[id];
    var g := t.groups[rule.group.value];
    var key, rest := Digits(keyIdx + 1), rule.name[|g|..];
    var name := g + key + rest;
    assert rule.name == g + rest;
    forall k | 0 <= k < |g|
      ensures g[k] != '-' && !IsDigit(g[k])
    {
      assert g[k] in g;
    }
    NameParts(g, key, rest);
    DecimalOfDigits(keyIdx + 1);
    var dash := |g| + |key|;
    assert name[dash - 1] == key[|key| - 1];
    NoPrefix(name, dash);
  }

  lemma SplitPlain(r: OptionRule)
    requires PlainNamed(r)
    ensures SplitKey(r.name) == Base(r.name, false, 0)
  {
  }

  lemma {:induction false} DigitsStartIs(s: string, dash: nat, start: nat)
    requires start <= dash <= |s| && (forall k :: start <= k < dash ==> IsDigit(s[k]))
    requires (start > 0 ==> !IsDigit(s[start - 1]))
    ensures DigitsStart(s, dash) == start
    decreases dash
  {
    if start < dash {
      DigitsStartIs(s, dash - 1, start);
    }
  }

  lemma {:induction false} ExactFirst(names: seq<string>, name: string, i: nat, id: nat)
    requires i <= id < |names| && names[id] == name && forall k :: i <= k < id ==> names[k] != name
    ensures Exact(names, name, i) == Some(id)
    decreases id - i
  {
    if i < id {
      ExactFirst(names, name, i + 1, id);
    }
  }

  lemma ExactOption(t: Tables, id: nat)
    requires WellFormed(t) && id < |t.options|
    ensures Exact(Names(t), t.options[id].name, 0) == Some(id)
  {
    forall k | 0 <= k < id
      ensures Names(t)[k] != t.options[id].name
    {
      assert Names(t)[k] == t.options[k].name;
    }
    ExactFirst(Names(t), t.options[id].name, 0, id);
  }

  lemma Strip(p: Prefix, name: string)
    requires !StartsWith(name, "no-") && !StartsWith(name, "reset-")
    ensures var s := PrefixText(p) + name;
            && StartsWith(s, "no-") == (p == Negate)
            && (p != Negate ==> StartsWith(s, "reset-") == (p == Reset))
            && s[|PrefixText(p)|..] == name
  {
    var s := PrefixText(p) + name;
    match p
    case Plain => assert s == name;
    case Negate => assert s[..3] == "no-";
    case Reset =>
      assert s[..6] == "reset-" && s[0] == 'r';
      assert |s| >= 3 ==> s[..3][0] == 'r';
  }

  // What a written name is read as: the same option and key, and an error only where the option forbids the prefix
  lemma NameRoundTrip(t: Tables, id: nat, keyIdx: nat, p: Prefix, prefixMatch: bool, ignoreMissingIndex: bool)
    requires WellFormed(t) && id < |t.options| && keyIdx < KEY_MAX
    requires t.options[id].group.None? ==> keyIdx == 0
    requires |PrefixText(p) + KeyIdxName(t, id, keyIdx)| <= NAME_SIZE_MAX
    ensures var rule := t.options[id];
            ReadName(t, PrefixText(p) + KeyIdxName(t, id, keyIdx), prefixMatch, ignoreMissingIndex) ==
            if p == Negate && !rule.negate then Invalid(CannotBeNegated)
            else if p == Reset && !rule.reset then Invalid(CannotBeReset)
            else Found(Name(id, keyIdx, p == Negate, p == Reset, rule.group.None? && rule.deprecateMatch))
  {
    hide Lookup, SplitKey, StartsWith;
    var rule := t.options[id];
    var name := KeyIdxName(t, id, keyIdx);
    if rule.group.Some? {
      SplitGrouped(t, id, keyIdx);
    } else {
      PlainPrefixes(rule);
      SplitPlain(rule);
    }
    Strip(p, name);
    ExactOption(t, id);
    LookupExact(Names(t), rule.name, id, prefixMatch);
  }

  // A name without the digits before its first dash, and these digits
  function Unkeyed(name: string): (string, string) {
    var dash := Find(name, '-', 0);
    var start := DigitsStart(name, dash);
    if dash == |name| then (name, "") else (name[..start] + name[dash..], name[start..dash])
  }

  lemma UnkeyedIs(t: Tables, id: nat, k: nat)
    requires WellFormed(t) && id < |t.options|
    ensures Unkeyed(KeyIdxName(t, id, k))
         == (t.options[id].name, if t.options[id].group.Some? then Digits(k + 1) else "")
  {
    hide Find, DigitsStart, Digits, Decimal;
    var rule := t.options[id];
    if rule.group.Some? {
      var g := t.groups[rule.group.value];
      var rest := rule.name[|g|..];
      assert rule.name == g + rest;
      forall i | 0 <= i < |g|
        ensures g[i] != '-' && !IsDigit(g[i])
      {
        assert g[i] in g;
      }
      NameParts(g, Digits(k + 1), rest);
    } else {
      PlainUnkeyed(rule);
    }
  }

  lemma PlainUnkeyed(r: OptionRule)
    requires PlainNamed(r)
    ensures Unkeyed(r.name) == (r.name, "")
  {
    var dash := Find(r.name, '-', 0);
    if dash < |r.name| {
      assert DigitsStart(r.name, dash) == dash;
      assert r.name[..dash] + r.name[dash..] == r.name && r.name[dash..dash] == "";
    }
  }

  lemma NamesDiffer(t: Tables, id: nat, id': nat)
    requires WellFormed(t) && id < |t.options| && id' < |t.options| && t.options[id].name == t.options[id'].name
    ensures id == id'
  {
    hide GroupNamed, PlainNamed, CommandNamed;
  }

  lemma DigitsDiffer(m: nat, n: nat)
    requires Digits(m) == Digits(n)
    ensures m == n
  {
    hide Digits;
    DecimalOfDigits(m);
    DecimalOfDigits(n);
  }

  // A written name tells its option, and for an option of a group the key
  lemma NameTells(t: Tables, id: nat, k: nat, id': nat, k': nat)
    requires WellFormed(t) && id < |t.options| && id' < |t.options|
    requires KeyIdxName(t, id, k) == KeyIdxName(t, id', k')
    ensures id == id' && (t.options[id].group.Some? ==> k == k')
  {
    hide KeyIdxName, Unkeyed, WellFormed, Digits;
    UnkeyedIs(t, id, k);
    UnkeyedIs(t, id', k');
    NamesDiffer(t, id, id');
    if t.options[id].group.Some? {
      DigitsDiffer(k + 1, k' + 1);
    }
  }

  lemma PlainPrefixes(r: OptionRule)
    requires PlainNamed(r)
    ensures !StartsWith(r.name, "no-") && !StartsWith(r.name, "reset-")
  {
  }

  lemma LookupExact(names: seq<string>, name: string, i: nat, prefixMatch: bool)
    requires Exact(names, name, 0) == Some(i)
    ensures Lookup(names, name, prefixMatch) == Some(i)
  {
  }

  // The digits before the first dash, from start to dash
  ghost predicate DigitsAt(name: string, start: nat, dash: nat) {
    && start < dash < |name| && name[dash] == '-' && (forall k :: 0 <= k < dash ==> name[k] != '-')
    && (forall k :: start <= k < dash ==> IsDigit(name[k])) && (start > 0 ==> !IsDigit(name[start - 1]))
  }

  lemma DigitsAtIs(name: string, start: nat, dash: nat)
    requires DigitsAt(name, start, dash)
    ensures Find(name, '-', 0) == dash && DigitsStart(name, dash) == start
  {
    FindIs(name, '-', 0, dash);
    DigitsStartIs(name, dash, start);
  }

  // What no name may look like: one that begins with a dash or a number, or has a key over 256 in 32 bits
  lemma NameErrors(name: string)
    ensures SplitKey(name) == Broken(BeginsWithDash) <==> name != "" && name[0] == '-'
    ensures SplitKey(name) == Broken(BeginsWithNumber) <==> exists dash: nat :: DigitsAt(name, 0, dash)
    ensures
      SplitKey(name) == Broken(KeyTooLarge) <==>
      exists start: nat, dash: nat ::
        DigitsAt(name, start, dash) && start > 0 && Decimal(name[start..dash]) % 0x1_0000_0000 > 256
  {
    hide Find, DigitsStart, Decimal;
    var dash := Find(name, '-', 0);
    if dash < |name| {
      var start := DigitsStart(name, dash);
      assert start < dash ==> DigitsAt(name, start, dash);
    }
    forall s: nat, d: nat | DigitsAt(name, s, d)
      ensures d == dash && s == DigitsStart(name, dash)
    {
      DigitsAtIs(name, s, d);
    }
  }

  // And a name is too long from the 65th character on
  lemma LengthExactly(t: Tables, candidate: string, prefixMatch: bool, ignoreMissingIndex: bool)
    requires WellFormed(t)
    ensures ReadName(t, candidate, prefixMatch, ignoreMissingIndex) == Invalid(TooLong) <==> |candidate| > 64
  {
    hide SplitKey, Lookup;
    if |candidate| <= 64 {
      var negate := StartsWith(candidate, "no-");
      var reset := !negate && StartsWith(candidate, "reset-");
      NoOtherError(if negate then candidate[3..] else if reset then candidate[6..] else candidate);
    }
  }

  lemma NoOtherError(name: string)
    ensures SplitKey(name).Broken? ==> SplitKey(name).error in {BeginsWithDash, BeginsWithNumber, KeyTooLarge}
  {
    hide Find, DigitsStart, Key;
  }

  // A deprecated name with a key before its rest, or without one
  function OldName(word: string, key: Option<nat>, rest: string): string {
    word + (if key.Some? then Digits(key.value + 1) else "") + rest
  }

  // The word has no key of its own and does not look like a prefix
  predicate OldWord(word: string, rest: string) {
    && |word| > 0 && (forall k :: 0 <= k < |word| ==> word[k] != '-' && !IsDigit(word[k]))
    && (rest == "" || rest[0] == '-') && word != "no" && word != "reset"
  }

  lemma OldSplit(word: string, key: Option<nat>, rest: string)
    requires OldWord(word, rest) && (key.Some? ==> key.value < KEY_MAX && rest != "")
    ensures SplitKey(OldName(word, key, rest))
         == Base(word + rest, key.Some?, if key.Some? then key.value else 0)
    ensures !StartsWith(OldName(word, key, rest), "no-") && !StartsWith(OldName(word, key, rest), "reset-")
  {
    hide Find, DigitsStart, Digits, Decimal;
    var name := OldName(word, key, rest);
    if key.Some? {
      NameParts(word, Digits(key.value + 1), rest);
      DecimalOfDigits(key.value + 1);
      var dash := |word| + |Digits(key.value + 1)|;
      assert name[dash - 1] == Digits(key.value + 1)[|Digits(key.value + 1)| - 1];
      NoPrefix(name, dash);
    } else {
      assert name == word + rest && forall k :: 0 <= k < |word| ==> name[k] == word[k];
      FindIs(name, '-', 0, |word|);
      DigitsStartIs(name, |word|, |word|);
      OldNoPrefix(name, word, rest);
    }
  }

  lemma OldNoPrefix(name: string, word: string, rest: string)
    requires OldWord(word, rest) && name == word + rest && Find(name, '-', 0) == |word|
    ensures !StartsWith(name, "no-") && !StartsWith(name, "reset-")
  {
    hide Find;
    assert "no" + "-" == "no-" && "reset" + "-" == "reset-";
    assert name[..|word|] == word;
    if StartsWith(name, "no" + "-") {
      PrefixDash(name, "no");
    }
    if StartsWith(name, "reset" + "-") {
      PrefixDash(name, "reset");
    }
  }

  lemma NoOption(names: seq<string>, name: string, prefixMatch: bool)
    requires name !in names && (prefixMatch ==> forall i :: 0 <= i < |names| ==> !StartsWith(names[i], name))
    ensures Lookup(names, name, prefixMatch) == None
  {
    hide StartsWith;
  }

  // A deprecated name is read as its option, marked as deprecated, with the key it has. Whether it may have one, and
  // whether it may do without, is for the name to say and not for the option.
  lemma DeprecatedExactly(t: Tables, n: nat, word: string, key: Option<nat>, rest: string, p: Prefix,
                          prefixMatch: bool, ignoreMissingIndex: bool)
    requires WellFormed(t) && n < |t.deprecated| && t.deprecated[n].name == word + rest
    requires OldWord(word, rest) && (key.Some? ==> key.value < KEY_MAX && rest != "")
    requires |PrefixText(p) + OldName(word, key, rest)| <= NAME_SIZE_MAX
    requires forall i :: 0 <= i < n ==> t.deprecated[i].name != word + rest
    requires forall i :: 0 <= i < |t.options| ==>
               t.options[i].name != word + rest && (prefixMatch ==> !StartsWith(t.options[i].name, word + rest))
    ensures
      var d := t.deprecated[n];
      var rule := t.options[d.id];
      ReadName(t, PrefixText(p) + OldName(word, key, rest), prefixMatch, ignoreMissingIndex) ==
      if key.Some? && !d.indexed then Invalid(CannotHaveIndex)
      else if key.None? && !d.unindexed && !ignoreMissingIndex then Invalid(RequiresIndex)
      else if p == Negate && !rule.negate then Invalid(CannotBeNegated)
      else if p == Reset && !rule.reset then Invalid(CannotBeReset)
      else Found(Name(d.id, if key.Some? then key.value else 0, p == Negate, p == Reset, true))
  {
    hide Lookup, SplitKey, StartsWith, OldName, GroupNamed, PlainNamed, OldWord;
    OldSplit(word, key, rest);
    Strip(p, OldName(word, key, rest));
    forall i | 0 <= i < |Names(t)|
      ensures Names(t)[i] == t.options[i].name
    {
    }
    NoOption(Names(t), word + rest, prefixMatch);
    ExactFirst(DeprecatedNames(t), word + rest, 0, n);
    LookupExact(DeprecatedNames(t), word + rest, n, prefixMatch);
  }

  // The name of an option itself with a key where it has none, or without one where it needs one. That is an error,
  // unless the name without a key is deprecated, or the key is not asked for.
  lemma IndexExactly(t: Tables, id: nat, word: string, key: Option<nat>, rest: string, p: Prefix,
                     prefixMatch: bool, ignoreMissingIndex: bool)
    requires WellFormed(t) && id < |t.options| && t.options[id].name == word + rest && OldWord(word, rest)
    requires if t.options[id].group.Some? then key.None? else key.Some? && key.value < KEY_MAX && rest != ""
    requires |PrefixText(p) + OldName(word, key, rest)| <= NAME_SIZE_MAX
    ensures
      var rule := t.options[id];
      ReadName(t, PrefixText(p) + OldName(word, key, rest), prefixMatch, ignoreMissingIndex) ==
      if p == Negate && !rule.negate then Invalid(CannotBeNegated)
      else if p == Reset && !rule.reset then Invalid(CannotBeReset)
      else if key.Some? then Invalid(CannotHaveIndex)
      else if rule.deprecateMatch then Found(Name(id, 0, p == Negate, p == Reset, true))
      else if ignoreMissingIndex then Found(Name(id, 0, p == Negate, p == Reset, false))
      else Invalid(RequiresIndex)
  {
    hide Lookup, SplitKey, StartsWith, OldName, GroupNamed, PlainNamed, OldWord;
    OldSplit(word, key, rest);
    Strip(p, OldName(word, key, rest));
    ExactOption(t, id);
    LookupExact(Names(t), word + rest, id, prefixMatch);
  }

  // An option of a group with a key of zero
  function ZeroName(t: Tables, id: nat): string
    requires WellFormed(t) && id < |t.options| && t.options[id].group.Some?
  {
    var g := t.groups[t.options[id].group.value];
    g + "0" + t.options[id].name[|g|..]
  }

  // It is not refused; one subtracted from the key is the greatest 32-bit number
  lemma KeyOfZero(t: Tables, id: nat, prefixMatch: bool, ignoreMissingIndex: bool)
    requires WellFormed(t) && id < |t.options| && t.options[id].group.Some?
    ensures ReadName(t, ZeroName(t, id), prefixMatch, ignoreMissingIndex)
         == if |ZeroName(t, id)| > NAME_SIZE_MAX then Invalid(TooLong)
            else Found(Name(id, UINT32 - 1, false, false, false))
  {
    hide Lookup, SplitKey, StartsWith, ZeroName;
    ZeroSplit(t, id);
    ExactOption(t, id);
    LookupExact(Names(t), t.options[id].name, id, prefixMatch);
  }

  lemma ZeroSplit(t: Tables, id: nat)
    requires WellFormed(t) && id < |t.options| && t.options[id].group.Some?
    ensures SplitKey(ZeroName(t, id)) == Base(t.options[id].name, true, UINT32 - 1)
    ensures !StartsWith(ZeroName(t, id), "no-") && !StartsWith(ZeroName(t, id), "reset-")
  {
    hide Find, DigitsStart;
    var rule := t.options[id];
    var g := t.groups[rule.group.value];
    var rest := rule.name[|g|..];
    assert rule.name == g + rest;
    forall k | 0 <= k < |g|
      ensures g[k] != '-' && !IsDigit(g[k])
    {
      assert g[k] in g;
    }
    NameParts(g, "0", rest);
    assert Decimal("0") == 0;
    NoPrefix(ZeroName(t, id), |g| + 1);
  }

  // For any other digits the key index is below the limit exactly when the number they stand for, in 32 bits, is a key
  lemma KeyInRange(name: string)
    requires SplitKey(name).Base? && SplitKey(name).indexed
    ensures var dash := Find(name, '-', 0); var start := DigitsStart(name, dash);
            && SplitKey(name).keyIdx < KEY_MAX <==> 1 <= Wrap(Decimal(name[start..dash])) <= KEY_MAX
  {
  }
}
