// Two options of a repository as the generated tables have them: its type, and whether certificates are checked, which
// only makes sense for a repository in an object store. They show that what the proofs leave open does happen.
module ParseExample {
  import opened Decimals
  import opened Options
  import opened ParseRules
  import opened ParseCursor
  import opened ParseIndex
  import opened ParseResolve

  const REPO := 0
  const POSIX := 0
  const S3 := 3

  const REPO_TYPE :=
    OptionRule("repo-type", StringId, false, false, false, true, true, false, false, Some(REPO), false,
               [RuleGroup(None, [Default(IdValue(POSIX))])])
  const VERIFY_TLS :=
    OptionRule("repo-storage-verify-tls", Boolean, false, false, true, true, true, false, false, Some(REPO), false,
               [RuleGroup(None, [Valid(Depend(None, 0, Ids([1, 2, S3]))), Default(BoolValue(true))])])

  const RESTORE := CommandRule("restore", {Main, Local, Remote})

  const TABLES := Tables([REPO_TYPE, VERIFY_TLS], ["repo"], [], [RESTORE], 1)
  const BASE :=
    Env(TABLES, 0, [true, true], [[0]], [[], []], false, 2,
        (kind, s) => None, s => if s == "azure" then 1 else if s == "gcs" then 2 else if s == "s3" then S3 else POSIX)

  function ById(id: nat): nat { id }

  // ---- what was found

  function FoundText(text: string, source: Source): ParseValue {
    ParseValue(true, false, false, source, [text])
  }

  function FoundNo(source: Source): ParseValue {
    ParseValue(true, true, false, source, [])
  }

  // One repository, set up in a file or on a command line, and two of which the first has nothing but the negated
  // option
  datatype Example = InFile | InArgs | Second

  function EnvOf(e: Example): Env {
    match e
    case InFile => BASE.(found := [[FoundText("posix", FromConfig)], [FoundNo(FromConfig)]])
    case InArgs => BASE.(found := [[FoundText("posix", FromParam)], [FoundNo(FromParam)]])
    case Second => BASE.(maps := [[0, 1]], found := [[ZERO, FoundText("s3", FromConfig)], [FoundNo(FromConfig)]])
  }

  // ---- the tables are well formed, and both options resolve

  lemma RepoGroup(rule: OptionRule)
    requires rule in {REPO_TYPE, VERIFY_TLS}
    ensures GroupNamed(TABLES, rule)
  {
    assert rule.name[..4] == "repo" && rule.name[4] == '-';
    forall c | c in "repo"
      ensures c != '-' && !IsDigit(c)
    {
    }
  }

  lemma RepoNames()
    ensures '=' !in REPO_TYPE.name && '=' !in VERIFY_TLS.name && '=' !in "repo" && ':' !in RESTORE.name
  {
    hide IsDigit;
  }

  lemma TablesFormed()
    ensures WellFormed(TABLES)
  {
    hide GroupNamed;
    RepoGroup(REPO_TYPE);
    RepoGroup(VERIFY_TLS);
    RepoNames();
    assert |REPO_TYPE.name| == 9 && |VERIFY_TLS.name| == 23;
  }

  lemma RulesOfOne(a: Rule, command: nat, kind: nat)
    ensures FindRule([RuleGroup(None, [a])], command, kind) == if TypeOf(a) == kind then Some(a) else None
  {
    assert [a][1..] == [];
    assert RuleOfType([], kind) == None;
  }

  lemma RulesOfTwo(a: Rule, b: Rule, command: nat, kind: nat)
    ensures FindRule([RuleGroup(None, [a, b])], command, kind)
         == if TypeOf(a) == kind then Some(a) else if TypeOf(b) == kind then Some(b) else None
  {
    assert [a, b][1..] == [b] && [b][1..] == [];
    assert RuleOfType([b], kind) == if TypeOf(b) == kind then Some(b) else None;
  }

  // The examples share their tables
  ghost predicate Repo(env: Env) {
    env == BASE.(maps := env.maps, found := env.found) && |env.found| == 2
  }

  lemma RepoRules(env: Env)
    requires Repo(env)
    ensures IsOption(env, 0) && DependOf(env, 0) == None
    ensures FindRule(Groups(env, 0), 0, 4) == Some(Default(IdValue(POSIX)))
    ensures IsOption(env, 1) && DependOf(env, 1) == Some(Depend(None, 0, Ids([1, 2, S3])))
    ensures FindRule(Groups(env, 1), 0, 4) == Some(Default(BoolValue(true)))
    ensures FindRule(Groups(env, 0), 0, 3) == None
    ensures forall id: nat :: IsOption(env, id) ==> id < 2
  {
    hide FindRule;
    var valid, default := Valid(Depend(None, 0, Ids([1, 2, S3]))), Default(BoolValue(true));
    RulesOfOne(Default(IdValue(POSIX)), 0, 1);
    RulesOfOne(Default(IdValue(POSIX)), 0, 3);
    RulesOfOne(Default(IdValue(POSIX)), 0, 4);
    RulesOfTwo(valid, default, 0, 1);
    RulesOfTwo(valid, default, 0, 4);
  }

  lemma RepoRanked(e: Example)
    ensures Repo(EnvOf(e)) && Sound(EnvOf(e)) && Ranked(EnvOf(e), ById)
  {
    RepoRules(EnvOf(e));
    hide FindRule;
  }

  // What the type comes to, and the other option when it was negated or not found
  lemma TypeIs(env: Env, text: string, source: Source)
    requires Repo(env)
    ensures IsOption(env, 0) && DependOf(env, 0) == None
    ensures Evaluate(env, 0, FoundText(text, source), None)
         == Ok(OptionValue(true, source, false, false, IdValue(env.identifier(text)), text))
    ensures Evaluate(env, 0, ZERO, None) == Ok(OptionValue(true, FromDefault, false, false, IdValue(POSIX), ""))
  {
    RepoRules(env);
    hide FindRule;
  }

  lemma VerifyIs(env: Env, on: OptionValue, source: Source)
    requires Repo(env) && on.isSet && on.value.IdValue? && source != FromDefault
    ensures IsOption(env, 1) && DependOf(env, 1).Some?
    ensures Evaluate(env, 1, FoundNo(source), Some(on))
         == if on.value.id in {1, 2, S3} then Ok(OptionValue(true, source, true, false, BoolValue(false), ""))
            else if source == FromParam then Err(DependInvalid)
            else Ok(OptionValue(false, FromDefault, true, false, NoValue, ""))
    ensures Evaluate(env, 1, ZERO, Some(on))
         == if on.value.id in {1, 2, S3} then Ok(OptionValue(true, FromDefault, false, false, BoolValue(true), ""))
            else Ok(OptionValue(false, FromDefault, false, false, NoValue, ""))
  {
    RepoRules(env);
    hide FindRule;
    assert Meets(Depend(None, 0, Ids([1, 2, S3])), on) <==> on.value.id in [1, 2, S3];
  }

  // The values of both options at an index
  function TypeAt(e: Example, idx: nat): OptionValue {
    match e
    case InFile => OptionValue(true, FromConfig, false, false, IdValue(POSIX), "posix")
    case InArgs => OptionValue(true, FromParam, false, false, IdValue(POSIX), "posix")
    case Second =>
      if idx == 0 then OptionValue(true, FromDefault, false, false, IdValue(POSIX), "")
      else OptionValue(true, FromConfig, false, false, IdValue(S3), "s3")
  }

  function VerifyAt(e: Example, idx: nat): Result {
    if idx == 1 then Ok(OptionValue(true, FromDefault, false, false, BoolValue(true), ""))
    else if e == InArgs then Err(DependInvalid)
    else Ok(OptionValue(false, FromDefault, true, false, NoValue, ""))
  }

  lemma RepoResolves(e: Example, idx: nat)
    ensures Sound(EnvOf(e)) && Ranked(EnvOf(e), ById) && IsOption(EnvOf(e), 0) && IsOption(EnvOf(e), 1)
    ensures IndexTotal(EnvOf(e), 0) == IndexTotal(EnvOf(e), 1) == if e == Second then 2 else 1
    ensures idx < IndexTotal(EnvOf(e), 0) ==> Resolve(EnvOf(e), ById, 0, idx) == Ok(TypeAt(e, idx))
    ensures idx < IndexTotal(EnvOf(e), 0) ==> Resolve(EnvOf(e), ById, 1, idx) == VerifyAt(e, idx)
  {
    var env := EnvOf(e);
    RepoRanked(e);
    RepoRules(env);
    hide FindRule, Sound, Ranked, Evaluate, Repo, DependOf;
    TypeIs(env, if e == Second then "s3" else "posix", if e == InArgs then FromParam else FromConfig);
    VerifyIs(env, TypeAt(e, idx), if e == InArgs then FromParam else FromConfig);
  }

  // ---- a second repository that becomes the first

  lemma {:induction false} UsedKeysEnd(lists: seq<seq<ParseValue>>, n: nat, limit: nat)
    requires n <= limit && forall i :: 0 <= i < |lists| ==> |lists[i]| <= n
    ensures UsedKeys(lists, limit) == UsedKeys(lists, n)
    decreases limit
  {
    if n < limit {
      UsedKeysEnd(lists, n, limit - 1);
    }
  }

  // Phase 4 gives both of them an index
  lemma SecondMapped()
    ensures UsedKeys(EnvOf(Second).found, KEY_MAX) == EnvOf(Second).maps[REPO] == [0, 1]
  {
    var found := EnvOf(Second).found;
    UsedKeysEnd(found, 2, KEY_MAX);
    assert Sets(found[1], 0) && Sets(found[0], 1);
    assert UsedKeys(found, 1) == [0];
  }

  lemma SecondValues(values: Values, id: nat)
    requires Sound(EnvOf(Second)) && Ranked(EnvOf(Second), ById) && AllResolved(EnvOf(Second), ById, values)
    requires id < 2 && id in values
    ensures |values[id]| == 2
    ensures id == 0 ==> values[id] == [TypeAt(Second, 0), TypeAt(Second, 1)]
    ensures id == 1 ==> values[id] == [VerifyAt(Second, 0).value, VerifyAt(Second, 1).value]
  {
    hide Resolve, Sound, Ranked, EnvOf, TypeAt, VerifyAt, IndexTotal, IsOption;
    RepoResolves(Second, 0);
    RepoResolves(Second, 1);
    assert Resolved(EnvOf(Second), ById, id, values[id]);
  }

  // In phase 5 the first one has nothing but defaults, since a negation in vain counts as one
  lemma SecondKept(values: Values, keep: set<(nat, nat)>)
    requires KeepsRight(EnvOf(Second), values, keep) && values.Keys == {0, 1}
    requires values[0] == [TypeAt(Second, 0), TypeAt(Second, 1)]
    requires values[1] == [VerifyAt(Second, 0).value, VerifyAt(Second, 1).value]
    ensures keep == {(REPO, 1)}
  {
    var env := EnvOf(Second);
    assert HoldsOther(env, values, 0, REPO, 1);
    assert NotAllDefault(env, values, REPO, 1);
    forall p | p in keep
      ensures p == (REPO, 1)
    {
      assert NotAllDefault(env, values, p.0, p.1);
      var id :| id in values && HoldsOther(env, values, id, p.0, p.1);
    }
  }

  lemma SecondTopological()
    ensures Sound(EnvOf(Second)) && Ranked(EnvOf(Second), ById) && Topological(EnvOf(Second), [0, 1])
  {
    RepoRanked(Second);
    RepoRules(EnvOf(Second));
    hide FindRule, Sound, Ranked;
    assert [0, 1][..1] == [0];
  }

  method ResolveSecond() returns (config: Config)
    ensures fresh(config) && config.keep == {(REPO, 1)} && config.values.Keys == {0, 1}
    ensures config.values[0] == [TypeAt(Second, 0), TypeAt(Second, 1)]
    ensures config.values[1] == [VerifyAt(Second, 0).value, VerifyAt(Second, 1).value]
  {
    var env := EnvOf(Second);
    SecondTopological();
    config := new Config();
    hide Resolve, FindRule, Evaluate, Sound, Ranked, Topological, AllResolved, KeepsRight;
    var error := config.ResolveAll(env, ById, [0, 1]);
    assert error.None? by {
      forall id: nat, i: nat | IsOption(env, id) && i < IndexTotal(env, id)
        ensures Resolve(env, ById, id, i).Ok?
      {
        RepoResolves(Second, i);
      }
    }
    RepoRules(env);
    SecondValues(config.values, 0);
    SecondValues(config.values, 1);
    SecondKept(config.values, config.keep);
  }

  method Column(values: seq<OptionValue>) returns (column: array<OptionValue>)
    ensures fresh(column) && column[..] == values
  {
    column := new OptionValue[|values|](i requires 0 <= i < |values| => values[i]);
  }

  // The map and the values of both options after phases 4 to 6: the second repository alone, as the first
  method SecondBecomesFirst()
    returns (indexMap: array<nat>, types: array<OptionValue>, verifies: array<OptionValue>, total: nat)
    ensures 0 < total <= indexMap.Length && total <= types.Length && total <= verifies.Length
    ensures indexMap[..total] == [0]
    ensures types[..total] == [TypeAt(Second, 1)] && verifies[..total] == [VerifyAt(Second, 1).value]
  {
    hide UsedKeys, TypeAt, VerifyAt, Compacted, FinalKeys;
    SecondMapped();
    indexMap := BuildMap(false, EnvOf(Second).found);
    var config := ResolveSecond();
    types := Column(config.values[0]);
    verifies := Column(config.values[1]);
    var keep := [(REPO, 0) in config.keep, (REPO, 1) in config.keep];
    SecondRemoves(config.values[0]);
    SecondRemoves(config.values[1]);
    var columns := [types, verifies];
    ghost var values := [config.values[0], config.values[1]];
    total := RemoveDefaults(indexMap, columns, indexMap.Length, keep, [0, 1], values);
    assert columns[0][..total] == Compacted(values[0], keep) && columns[1][..total] == Compacted(values[1], keep);
  }

  // Phase 6 keeps the second of two indexes, whose key it then changes
  lemma SecondRemoves<T>(s: seq<T>)
    requires |s| == 2
    ensures Compacted(s, [false, true]) == [s[1]]
    ensures FinalKeys([0, 1], [false, true]) == [0]
  {
    assert Select(s, [false, true], 1) == [s[1]] + Select(s, [false, true], 2) == [s[1]];
    assert Select([0, 1], [false, true], 1) == [1] + Select([0, 1], [false, true], 2) == [1];
  }
}
