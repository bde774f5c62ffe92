// config/parse.c and config/config.c: the lists of values found for an option, the map from the indexes of a group to
// keys, and the removal of indexes that turn out to be unused.
module ParseIndex {
  import opened Options
  import opened ParseRules

  const LIST_INITIAL_SIZE := 8

  datatype Source = FromDefault | FromParam | FromConfig

  // What was found for an option at one key
  datatype ParseValue = ParseValue(found: bool, negate: bool, reset: bool, source: Source, values: seq<string>)

  // The value of an option at one index in the configuration, and for a single value the text it was given as
  datatype OptionValue = OptionValue(
    isSet: bool, source: Source, negate: bool, reset: bool, value: Value, display: string)

  const ZERO := ParseValue(false, false, false, FromDefault, [])

  // ---- the list of values of one option

  class ParseOption {
    const group: bool
    var indexList: array<ParseValue>

    constructor (group: bool)
      ensures this.group == group && fresh(indexList) && indexList.Length == 0
    {
      this.group := group;
      indexList := new ParseValue[0];
    }

    // The value at a key, as if the list went on without end
    function At(keyIdx: nat): ParseValue
      reads this, indexList
    {
      if keyIdx < indexList.Length then indexList[keyIdx] else ZERO
    }

    // parseOptionIdxValue: afterwards the list has the key, and holds what it held before and nothing new
    method IdxValue(keyIdx: nat)
      requires group || keyIdx == 0
      modifies this
      ensures keyIdx < indexList.Length
      ensures forall k :: 0 <= k < indexList.Length ==> indexList[k] == old(At(k))
      ensures old(indexList.Length) <= indexList.Length
      ensures indexList == old(indexList) || fresh(indexList)
      ensures indexList.Length == GrownSize(group, old(indexList.Length), keyIdx)
    {
      if keyIdx >= indexList.Length {
        var current := indexList;
        var list: array<ParseValue>;
        var offset := 0;
        if group {
          if indexList.Length == 0 {
            list := new ParseValue[if keyIdx >= LIST_INITIAL_SIZE / 2 then keyIdx + 1 else LIST_INITIAL_SIZE / 2];
          } else {
            offset := indexList.Length;
            list := new ParseValue[keyIdx + 1];
            // memResize keeps the old part
            for k := 0 to offset
              invariant forall j :: 0 <= j < k ==> list[j] == current[j]
            {
              list[k] := current[k];
            }
          }
        } else {
          list := new ParseValue[1];
        }
        for k := offset to list.Length
          invariant forall j :: 0 <= j < offset ==> list[j] == current[j]
          invariant forall j :: offset <= j < k ==> list[j] == ZERO
        {
          list[k] := ZERO;
        }
        indexList := list;
      }
    }
  }

  function GrownSize(group: bool, size: nat, keyIdx: nat): nat {
    if keyIdx < size then size
    else if !group then 1
    else if size == 0 && keyIdx < LIST_INITIAL_SIZE / 2 then LIST_INITIAL_SIZE / 2
    else keyIdx + 1
  }

  // ---- the keys in use

  // Some option of the group has a value at the key
  predicate Used(lists: seq<seq<ParseValue>>, key: nat) {
    exists i :: 0 <= i < |lists| && Sets(lists[i], key)
  }

  predicate Sets(list: seq<ParseValue>, key: nat) {
    key < |list| && list[key].found && !list[key].reset
  }

  // The used keys below a limit
  function UsedKeys(lists: seq<seq<ParseValue>>, limit: nat): seq<nat> {
    if limit == 0 then []
    else if Used(lists, limit - 1) then UsedKeys(lists, limit - 1) + [limit - 1]
    else UsedKeys(lists, limit - 1)
  }

  // They are exactly the used ones, in strictly ascending order
  lemma {:induction false} UsedKeysExact(lists: seq<seq<ParseValue>>, limit: nat)
    ensures forall key :: key in UsedKeys(lists, limit) <==> 0 <= key < limit && Used(lists, key)
    ensures forall k :: 0 <= k < |UsedKeys(lists, limit)| - 1 ==>
              UsedKeys(lists, limit)[k] < UsedKeys(lists, limit)[k + 1]
    decreases limit
  {
    hide Used;
    if limit > 0 {
      UsedKeysExact(lists, limit - 1);
      var before := UsedKeys(lists, limit - 1);
      if |before| > 0 {
        assert before[|before| - 1] in before;
      }
    }
  }

  lemma {:induction false} StrictlyAscending(r: seq<nat>, i: nat, j: nat)
    requires (forall k :: 0 <= k < |r| - 1 ==> r[k] < r[k + 1]) && i < j < |r|
    ensures r[i] < r[j]
    decreases j - i
  {
    if i + 1 < j {
      StrictlyAscending(r, i, j - 1);
    }
  }

  // The index map of a group: at least one index, and one for each used key
  function IndexMap(lists: seq<seq<ParseValue>>): (r: seq<nat>)
    ensures |r| > 0
  {
    var keys := UsedKeys(lists, KEY_MAX);
    if keys == [] then [0] else keys
  }

  // The pg group always has its first key at the first index. If that key is not used there is one key too many to
  // write.
  predicate FirstKeyUsed(pg: bool, lists: seq<seq<ParseValue>>) {
    pg && UsedKeys(lists, KEY_MAX) != [] ==> Used(lists, 0)
  }

  // The first loop of phase 4: which keys are used, and how many
  method ScanKeys(lists: seq<seq<ParseValue>>) returns (used: array<bool>, indexTotal: nat)
    requires forall i :: 0 <= i < |lists| ==> |lists[i]| <= KEY_MAX
    ensures fresh(used) && used.Length == KEY_MAX
    ensures forall key :: 0 <= key < KEY_MAX ==> used[key] == Used(lists, key)
    ensures indexTotal == |UsedKeys(lists, KEY_MAX)|
  {
    used := new bool[KEY_MAX](_ => false);
    indexTotal := 0;
    CountNone(used[..], KEY_MAX);
    for i := 0 to |lists|
      invariant forall key :: 0 <= key < KEY_MAX ==> used[key] == Used(lists[..i], key)
      invariant indexTotal == Count(used[..], KEY_MAX)
    {
      ghost var before := used[..];
      for key := 0 to |lists[i]|
        invariant forall k :: 0 <= k < KEY_MAX ==> used[k] == (before[k] || (k < key && Sets(lists[i], k)))
        invariant indexTotal == Count(used[..], KEY_MAX)
      {
        if lists[i][key].found && !lists[i][key].reset {
          if !used[key] {
            CountSet(used[..], key, KEY_MAX);
            indexTotal := indexTotal + 1;
            used[key] := true;
            assert used[..] == used[..][key := true];
          }
        }
      }
      forall k | 0 <= k < KEY_MAX
        ensures used[k] == Used(lists[..i + 1], k)
      {
        UsedAppend(lists, i, k);
      }
    }
    assert lists[..|lists|] == lists;
    CountUsed(lists, used[..], KEY_MAX);
  }

  lemma UsedAppend(lists: seq<seq<ParseValue>>, i: nat, key: nat)
    requires i < |lists|
    ensures Used(lists[..i + 1], key) <==> Used(lists[..i], key) || Sets(lists[i], key)
  {
    if Used(lists[..i], key) {
      var j :| 0 <= j < i && Sets(lists[..i][j], key);
      assert lists[..i + 1][j] == lists[j];
    }
    if Sets(lists[i], key) {
      assert lists[..i + 1][i] == lists[i];
    }
    if Used(lists[..i + 1], key) && !Sets(lists[i], key) {
      var j :| 0 <= j < i + 1 && Sets(lists[..i + 1][j], key);
      assert lists[..i][j] == lists[j];
    }
  }

  function Count(used: seq<bool>, limit: nat): nat
    requires limit <= |used|
  {
    if limit == 0 then 0 else Count(used, limit - 1) + (if used[limit - 1] then 1 else 0)
  }

  lemma {:induction false} CountNone(used: seq<bool>, limit: nat)
    requires limit <= |used| && forall k :: 0 <= k < limit ==> !used[k]
    ensures Count(used, limit) == 0
  {
    if limit > 0 {
      CountNone(used, limit - 1);
    }
  }

  lemma {:induction false} CountSet(used: seq<bool>, key: nat, limit: nat)
    requires limit <= |used| && key < |used| && !used[key]
    ensures Count(used[key := true], limit) == Count(used, limit) + (if key < limit then 1 else 0)
  {
    if limit > 0 {
      CountSet(used, key, limit - 1);
    }
  }

  lemma {:induction false} CountUsed(lists: seq<seq<ParseValue>>, used: seq<bool>, limit: nat)
    requires limit <= |used| && forall k :: 0 <= k < limit ==> used[k] == Used(lists, k)
    ensures Count(used, limit) == |UsedKeys(lists, limit)|
  {
    if limit > 0 {
      CountUsed(lists, used, limit - 1);
    }
  }

  // Phase 4 for one group
  method BuildMap(pg: bool, lists: seq<seq<ParseValue>>) returns (indexMap: array<nat>)
    requires forall i :: 0 <= i < |lists| ==> |lists[i]| <= KEY_MAX
    requires FirstKeyUsed(pg, lists)
    ensures fresh(indexMap) && indexMap[..] == IndexMap(lists)
  {
    var used, indexTotal := ScanKeys(lists);
    indexMap := new nat[if indexTotal == 0 then 1 else indexTotal];
    if indexTotal == 0 {
      indexMap[0] := 0;
    } else {
      var idxMax, key := 0, 0;
      if pg {
        key, idxMax := 1, 1;
        indexMap[0] := 0;
        assert UsedKeys(lists, 0) == [] && UsedKeys(lists, 1) == [0];
      }
      hide Used;
      while key < KEY_MAX
        invariant key <= KEY_MAX && idxMax == |UsedKeys(lists, key)| <= indexMap.Length
        invariant indexMap[..idxMax] == UsedKeys(lists, key)
        invariant forall k :: 0 <= k < KEY_MAX ==> used[k] == Used(lists, k)
      {
        UsedPrefix(lists, key + 1, KEY_MAX);
        if used[key] {
          indexMap[idxMax] := key;
          idxMax := idxMax + 1;
        }
        key := key + 1;
      }
    }
  }

  lemma {:induction false} UsedPrefix(lists: seq<seq<ParseValue>>, low: nat, high: nat)
    requires low <= high
    ensures |UsedKeys(lists, low)| <= |UsedKeys(lists, high)|
    decreases high - low
  {
    if low < high {
      UsedPrefix(lists, low, high - 1);
    }
  }

  // How many entries of the map phase 4 writes for a group with used keys
  function EntriesWritten(pg: bool, lists: seq<seq<ParseValue>>): int {
    if pg then 1 + |UsedKeys(lists, KEY_MAX)| - |UsedKeys(lists, 1)| else |UsedKeys(lists, KEY_MAX)|
  }

  // The map has room for them except in the pg group when its first key is not used
  lemma EntriesFit(pg: bool, lists: seq<seq<ParseValue>>)
    requires UsedKeys(lists, KEY_MAX) != []
    ensures EntriesWritten(pg, lists) == |UsedKeys(lists, KEY_MAX)| <==> FirstKeyUsed(pg, lists)
  {
    assert UsedKeys(lists, 0) == [];
  }

  // ---- keys and indexes

  // cfgOptionGroupIdxToKey
  function IdxToKey(indexMap: seq<nat>, idx: nat): nat
    requires idx < |indexMap|
  {
    indexMap[idx] + 1
  }

  // cfgOptionKeyToIdx for an option of a group; a key that is not in the map is an error. Subtracting one from a key of
  // zero gives a number no map holds.
  method KeyToIdx(indexMap: seq<nat>, key: nat) returns (r: Option<nat>)
    ensures r == KeyIndex(indexMap, key)
  {
    var result := 0;
    while result < |indexMap| && indexMap[result] != key - 1
      invariant result <= |indexMap| && forall k :: 0 <= k < result ==> indexMap[k] != key - 1
    {
      result := result + 1;
    }
    KeyIndexIs(indexMap, key, 0, result);
    return if result == |indexMap| then None else Some(result);
  }

  function IndexFrom(indexMap: seq<nat>, key: nat, from: nat): (r: Option<nat>)
    requires from <= |indexMap|
    ensures r.Some? ==> from <= r.value < |indexMap| && indexMap[r.value] == key - 1
    ensures r.None? ==> forall k :: from <= k < |indexMap| ==> indexMap[k] != key - 1
    decreases |indexMap| - from
  {
    if from == |indexMap| then None else if indexMap[from] == key - 1 then Some(from)
         else IndexFrom(indexMap, key, from + 1)
  }

  function KeyIndex(indexMap: seq<nat>, key: nat): (r: Option<nat>)
    ensures r.Some? ==> r.value < |indexMap|
  {
    IndexFrom(indexMap, key, 0)
  }

  lemma {:induction false} KeyIndexIs(indexMap: seq<nat>, key: nat, from: nat, idx: nat)
    requires from <= idx <= |indexMap| && forall k :: from <= k < idx ==> indexMap[k] != key - 1
    requires idx < |indexMap| ==> indexMap[idx] == key - 1
    ensures IndexFrom(indexMap, key, from) == if idx == |indexMap| then None else Some(idx)
    decreases idx - from
  {
    if from < idx {
      KeyIndexIs(indexMap, key, from + 1, idx);
    }
  }

  // On the map of a group the two conversions undo each other, and the keys that convert are the used ones
  lemma KeysAndIndexes(lists: seq<seq<ParseValue>>, idx: nat, key: nat)
    requires idx < |IndexMap(lists)|
    ensures KeyIndex(IndexMap(lists), IdxToKey(IndexMap(lists), idx)) == Some(idx)
    ensures KeyIndex(IndexMap(lists), key).Some? ==>
              IdxToKey(IndexMap(lists), KeyIndex(IndexMap(lists), key).value) == key
    ensures UsedKeys(lists, KEY_MAX) != [] ==>
              (KeyIndex(IndexMap(lists), key).Some? <==> 1 <= key <= KEY_MAX && Used(lists, key - 1))
  {
    hide UsedKeys, Used;
    UsedKeysExact(lists, KEY_MAX);
    var m := IndexMap(lists);
    forall k | 0 <= k < idx
      ensures m[k] != m[idx]
    {
      StrictlyAscending(m, k, idx);
    }
    KeyIndexIs(m, m[idx] + 1, 0, idx);
    if 1 <= key {
      assert (key - 1) in m <==> KeyIndex(m, key).Some?;
    }
  }

  // ---- indexes that only hold defaults

  // What is kept from index i on, in order
  function Select<T>(s: seq<T>, keep: seq<bool>, i: nat): seq<T>
    requires i <= |s| <= |keep|
    decreases |s| - i
  {
    if i == |s| then [] else if keep[i] then [s[i]] + Select(s, keep, i + 1) else Select(s, keep, i + 1)
  }

  // The kept indexes in order, or the first one alone when none is kept
  function Compacted<T>(s: seq<T>, keep: seq<bool>): seq<T>
    requires 0 < |s| <= |keep|
  {
    if Select(s, keep, 0) == [] then [s[0]] else Select(s, keep, 0)
  }

  function Without<T>(s: seq<T>, i: nat): seq<T>
    requires i < |s|
  {
    s[..i] + s[i + 1..]
  }

  // memmove of everything after a position one place down
  method MoveDown<T>(a: array<T>, keyIdx: nat, total: nat)
    requires keyIdx < total <= a.Length
    modifies a
    ensures a[..total - 1] == Without(old(a[..total]), keyIdx)
    ensures a[total - 1..] == old(a[total - 1..])
  {
    for k := keyIdx to total - 1
      invariant forall j :: 0 <= j < keyIdx || k <= j < a.Length ==> a[j] == old(a[j])
      invariant forall j :: keyIdx <= j < k ==> a[j] == old(a[j + 1])
    {
      a[k] := a[k + 1];
    }
  }

  // All arrays of a group lose the same indexes
  lemma {:induction false} SelectAligned<T, U>(s: seq<T>, u: seq<U>, keep: seq<bool>, i: nat)
    requires i <= |s| == |u| <= |keep|
    ensures |Select(s, keep, i)| == |Select(u, keep, i)|
    decreases |s| - i
  {
    if i < |s| {
      SelectAligned(s, u, keep, i + 1);
    }
  }

  // An array of the group when the indexes from i on have been gone through
  ghost predicate Remaining<T>(now: seq<T>, s: seq<T>, keep: seq<bool>, i: nat) {
    i <= |s| <= |keep| && now == s[..i] + Select(s, keep, i)
  }

  lemma NothingRemoved<T>(s: seq<T>, keep: seq<bool>)
    requires |s| <= |keep|
    ensures Remaining(s, s, keep, |s|)
  {
  }

  // One round on one array
  lemma OneRound<T>(now: seq<T>, s: seq<T>, keep: seq<bool>, i: nat)
    requires i < |s| && Remaining(now, s, keep, i + 1)
    ensures i < |now|
    ensures keep[i] ==> Remaining(now, s, keep, i)
    ensures !keep[i] ==> Remaining(Without(now, i), s, keep, i)
    ensures i == |now| - 1 ==> Without(now, i) == now[..|now| - 1]
  {
    assert s[..i + 1] == s[..i] + [s[i]];
  }

  lemma AllRounds<T>(now: seq<T>, s: seq<T>, keep: seq<bool>, i: nat)
    requires Remaining(now, s, keep, i) && |s| > 0 && |now| > 0 && (i == 0 || |now| == 1)
    ensures now == Compacted(s, keep)
  {
    if i > 0 {
      assert now == s[..1] && Select(s, keep, 1) == [];
    }
  }

  // The removal from every option of the group
  method MoveColumnsDown(columns: seq<array<OptionValue>>, keyIdx: nat, total: nat)
    requires keyIdx < total
    requires forall c :: 0 <= c < |columns| ==> total <= columns[c].Length
    requires forall c, d :: 0 <= c < d < |columns| ==> columns[c] != columns[d]
    modifies set c | c in columns
    ensures forall c :: 0 <= c < |columns| ==>
              columns[c][..total - 1] == Without(old(columns[c][..total]), keyIdx)
  {
    for c := 0 to |columns|
      invariant forall d :: 0 <= d < c ==>
                  columns[d][..total - 1] == Without(old(columns[d][..total]), keyIdx)
      invariant forall d :: c <= d < |columns| ==> columns[d][..] == old(columns[d][..])
    {
      assert columns[c] in columns;
      MoveDown(columns[c], keyIdx, total);
    }
  }

  // Phase 6 for one group: the indexes are gone through from the last to the first
  method Compact(
    indexMap: array<nat>, columns: seq<array<OptionValue>>, indexTotal: nat, keep: seq<bool>,
    ghost keys: seq<nat>, ghost values: seq<seq<OptionValue>>) returns (total: nat)
    requires 0 < indexTotal <= indexMap.Length && indexTotal <= |keep|
    requires forall c :: 0 <= c < |columns| ==> indexTotal <= columns[c].Length
    requires forall c, d :: 0 <= c < d < |columns| ==> columns[c] != columns[d]
    requires indexMap[..indexTotal] == keys && |values| == |columns|
    requires forall c :: 0 <= c < |columns| ==> columns[c][..indexTotal] == values[c]
    modifies indexMap, set c | c in columns
    ensures 0 < total <= indexTotal
    ensures indexMap[..total] == Compacted(keys, keep)
    ensures forall c :: 0 <= c < |columns| ==> columns[c][..total] == Compacted(values[c], keep)
  {
    hide Select, Remaining, Compacted, Without;
    total := indexTotal;
    var last := indexTotal;  // one more than the index to look at
    NothingRemoved(keys, keep);
    forall c | 0 <= c < |columns| {
      NothingRemoved(values[c], keep);
    }
    while last > 0 && total != 1
      invariant last <= indexTotal && 0 < total <= indexTotal
      invariant Remaining(indexMap[..total], keys, keep, last)
      invariant forall c :: 0 <= c < |columns| ==> Remaining(columns[c][..total], values[c], keep, last)
    {
      var keyIdx := last - 1;
      OneRound(indexMap[..total], keys, keep, keyIdx);
      forall c | 0 <= c < |columns| {
        OneRound(columns[c][..total], values[c], keep, keyIdx);
      }
      if !keep[keyIdx] {
        assert indexMap[..total - 1] == indexMap[..total][..total - 1];
        assert forall c :: 0 <= c < |columns| ==> columns[c][..total - 1] == columns[c][..total][..total - 1];
        if keyIdx < total - 1 {
          MoveDown(indexMap, keyIdx, total);
          MoveColumnsDown(columns, keyIdx, total);
        }
        total := total - 1;
      }
      last := keyIdx;
    }
    AllRounds(indexMap[..total], keys, keep, last);
    forall c | 0 <= c < |columns| {
      AllRounds(columns[c][..total], values[c], keep, last);
    }
  }

  // The keys after the last test of phase 6, which looks at the first flag as it was before the removal
  function FinalKeys(keys: seq<nat>, keep: seq<bool>): seq<nat>
    requires 0 < |keys| <= |keep|
  {
    var kept := Compacted(keys, keep);
    if |kept| == 1 && !keep[0] then [0] else kept
  }

  // Phase 6 for one group to its end
  method RemoveDefaults(
    indexMap: array<nat>, columns: seq<array<OptionValue>>, indexTotal: nat, keep: seq<bool>,
    ghost keys: seq<nat>, ghost values: seq<seq<OptionValue>>) returns (total: nat)
    requires 0 < indexTotal <= indexMap.Length && indexTotal <= |keep|
    requires forall c :: 0 <= c < |columns| ==> indexTotal <= columns[c].Length
    requires forall c, d :: 0 <= c < d < |columns| ==> columns[c] != columns[d]
    requires indexMap[..indexTotal] == keys && |values| == |columns|
    requires forall c :: 0 <= c < |columns| ==> columns[c][..indexTotal] == values[c]
    modifies indexMap, set c | c in columns
    ensures 0 < total <= indexTotal
    ensures indexMap[..total] == FinalKeys(keys, keep)
    ensures forall c :: 0 <= c < |columns| ==> columns[c][..total] == Compacted(values[c], keep)
  {
    hide Compacted;
    total := Compact(indexMap, columns, indexTotal, keep, keys, values);
    if total == 1 && !keep[0] && indexMap[0] != 0 {
      indexMap[0] := 0;
    }
  }

  lemma {:induction false} SelectedFrom(keys: seq<nat>, keep: seq<bool>, i: nat)
    requires i <= |keys| <= |keep|
    ensures forall x :: x in Select(keys, keep, i) ==> exists k :: i <= k < |keys| && keep[k] && keys[k] == x
    decreases |keys| - i
  {
    if i < |keys| {
      SelectedFrom(keys, keep, i + 1);
    }
  }

  // Indexes with values other than defaults keep their keys, except that a single one that was not the first becomes
  // key 1
  lemma KeysKept(keys: seq<nat>, keep: seq<bool>)
    requires 0 < |keys| <= |keep|
    requires forall k :: 0 <= k < |keys| - 1 ==> keys[k] < keys[k + 1]
    requires Select(keys, keep, 0) != []
    ensures FinalKeys(keys, keep) == Select(keys, keep, 0) <==> !(|Select(keys, keep, 0)| == 1 && !keep[0])
  {
    var kept := Select(keys, keep, 0);
    if |kept| == 1 && !keep[0] {
      SelectedFrom(keys, keep, 0);
      assert kept[0] in kept;
      var k :| 0 <= k < |keys| && keep[k] && keys[k] == kept[0];
      StrictlyAscending(keys, 0, k);
    }
  }

  // When no index has a value other than a default the first one is left, and as key 1 whatever its key was
  lemma DefaultsKept<T>(keys: seq<nat>, s: seq<T>, keep: seq<bool>)
    requires 0 < |keys| == |s| <= |keep| && forall k :: 0 <= k < |keys| ==> !keep[k]
    ensures FinalKeys(keys, keep) == [0] && Compacted(s, keep) == [s[0]]
  {
    hide Select;
    SelectNone(keys, keep, 0);
    SelectNone(s, keep, 0);
  }

  lemma {:induction false} SelectNone<T>(s: seq<T>, keep: seq<bool>, i: nat)
    requires i <= |s| <= |keep| && forall k :: i <= k < |s| ==> !keep[k]
    ensures Select(s, keep, i) == []
    decreases |s| - i
  {
    if i < |s| {
      SelectNone(s, keep, i + 1);
    }
  }

  // ---- the indexes that are left

  function Indexes(n: nat): (r: seq<nat>)
    ensures |r| == n
  {
    seq(n, i requires 0 <= i < n => i)
  }

  // Which indexes phase 6 leaves
  function Survivors(keep: seq<bool>): seq<nat>
    requires |keep| > 0
  {
    Compacted<nat>(Indexes(|keep|), keep)
  }

  lemma {:induction false} SelectAt<T>(s: seq<T>, keep: seq<bool>, i: nat)
    requires i <= |s| == |keep|
    ensures
      var left: seq<nat> := Select<nat>(Indexes(|keep|), keep, i);
      && |Select(s, keep, i)| == |left|
      && forall j :: 0 <= j < |left| ==> left[j] < |s| && Select(s, keep, i)[j] == s[left[j]]
    decreases |s| - i
  {
    if i < |s| {
      SelectAt(s, keep, i + 1);
    }
  }

  // Every array of the group keeps what it has at those indexes
  lemma CompactedAt<T>(s: seq<T>, keep: seq<bool>)
    requires 0 < |s| == |keep|
    ensures |Compacted(s, keep)| == |Survivors(keep)|
    ensures forall j :: 0 <= j < |Survivors(keep)| ==>
              Survivors(keep)[j] < |s| && Compacted(s, keep)[j] == s[Survivors(keep)[j]]
  {
    hide Select;
    SelectAt(s, keep, 0);
  }

  lemma {:induction false} SelectedExactly(keep: seq<bool>, i: nat, k: nat)
    requires i <= |keep|
    ensures k in Select<nat>(Indexes(|keep|), keep, i) <==> i <= k < |keep| && keep[k]
    decreases |keep| - i
  {
    if i < |keep| {
      SelectedExactly(keep, i + 1, k);
    }
  }

  // An index is left if it is kept, and the first one also when none is
  lemma SurvivesExactly(keep: seq<bool>, k: nat)
    requires |keep| > 0
    ensures k in Survivors(keep) <==> k < |keep| && (keep[k] || (k == 0 && true !in keep))
  {
    hide Select;
    var all := Select<nat>(Indexes(|keep|), keep, 0);
    SelectedExactly(keep, 0, k);
    if all == [] {
      assert Survivors(keep) == [0];
      if true in keep {
        var i: nat :| i < |keep| && keep[i];
        SelectedExactly(keep, 0, i);
      }
    } else {
      assert all[0] in all;
      SelectedExactly(keep, 0, all[0]);
    }
  }

  ghost predicate Ascends(a: seq<nat>) {
    forall k :: 0 <= k < |a| - 1 ==> a[k] < a[k + 1]
  }

  lemma {:induction false} SelectAscends(keys: seq<nat>, keep: seq<bool>, i: nat)
    requires i <= |keys| <= |keep| && Ascends(keys)
    ensures
      var kept := Select(keys, keep, i);
      && Ascends(kept)
      && (kept != [] ==> i < |keys| && keys[i] <= kept[0])
      && (forall x :: x in kept ==> x in keys)
    decreases |keys| - i
  {
    if i < |keys| {
      SelectAscends(keys, keep, i + 1);
    }
  }

  // The keys that are left still ascend
  lemma FinalAscends(keys: seq<nat>, keep: seq<bool>)
    requires 0 < |keys| <= |keep| && Ascends(keys)
    ensures
      var left := FinalKeys(keys, keep);
      && |left| > 0 && Ascends(left)
      && (forall x :: x in left ==> x in keys || x == 0)
  {
    hide Select;
    SelectAscends(keys, keep, 0);
  }

  // Two ascending lists of the same keys are the same
  lemma {:induction false} AscendingSame(a: seq<nat>, b: seq<nat>)
    requires Ascends(a) && Ascends(b) && forall x: nat :: x in a <==> x in b
    ensures a == b
    decreases |a|
  {
    hide Ascends;
    if a != [] {
      assert a[0] in a;
    }
    if b != [] {
      assert b[0] in b;
    }
    if a != [] && b != [] {
      var before, last := a[..|a| - 1], a[|a| - 1];
      var before', last' := b[..|b| - 1], b[|b| - 1];
      AllButLast(a, before, last);
      AllButLast(b, before', last');
      assert last in a && last' in b;
      AscendingSame(before, before');
    }
  }

  lemma AllButLast(a: seq<nat>, before: seq<nat>, last: nat)
    requires Ascends(a) && a != [] && before == a[..|a| - 1] && last == a[|a| - 1]
    ensures Ascends(before) && a == before + [last]
    ensures forall x: nat :: x in a ==> x <= last
    ensures forall x: nat :: x in before <==> x in a && x != last
  {
    forall k | 0 <= k < |a| - 1
      ensures a[k] < last
    {
      StrictlyAscending(a, k, |a| - 1);
    }
  }
}
