// common/type/json.c: the compact text the writer gives for a value, which is what info files hold.
module JsonWrites {
  import opened Decimals
  import opened Json
  import opened JsonLex
  import opened JsonStrings
  import opened Sequences
  import opened Strings

  datatype Value =
    | NullValue
    | BoolValue(boolean: bool)
    | NumberValue(number: int)
    | TextValue(text: string)
    | ArrayValue(items: seq<Value>)
    | ObjectValue(members: seq<Member>)

  datatype Member = Member(key: string, value: Value)

  // What the writer takes: numbers of 64 bits, texts without zero bytes, and keys without anything to escape, which it
  // asserts. That it also refuses keys out of order is not needed.
  ghost predicate Writable(v: Value)
    decreases v
  {
    match v
    case NumberValue(n) => INT64_MIN <= n <= UINT64_MAX
    case TextValue(s) => CString(s)
    case ArrayValue(items) => forall i :: 0 <= i < |items| ==> Writable(items[i])
    case ObjectValue(members) =>
      forall i :: 0 <= i < |members| ==> PlainKey(members[i].key) && Writable(members[i].value)
    case _ => true
  }

  predicate PlainKey(key: string) {
    CString(key) && forall c :: c in key ==> Letter(c).None?
  }

  function NumberText(n: int): string {
    if n < 0 then "-" + Digits(-n) else Digits(n)
  }

  function Written(v: Value): string
    decreases v
  {
    match v
    case NullValue => "null"
    case BoolValue(b) => if b then "true" else "false"
    case NumberValue(n) => NumberText(n)
    case TextValue(s) => Quote(s)
    case ArrayValue(_) => "[" + ItemsFrom(v, 0) + "]"
    case ObjectValue(_) => "{" + MembersFrom(v, 0) + "}"
  }

  function Comma(i: nat): string {
    if i > 0 then "," else ""
  }

  function ItemsFrom(v: Value, i: nat): string
    requires v.ArrayValue? && i <= |v.items|
    decreases v, |v.items| - i
  {
    if i == |v.items| then "" else Comma(i) + Written(v.items[i]) + ItemsFrom(v, i + 1)
  }

  function MembersFrom(v: Value, i: nat): string
    requires v.ObjectValue? && i <= |v.members|
    decreases v, |v.members| - i
  {
    if i == |v.members| then ""
    else KeyText(i, v.members[i].key) + Written(v.members[i].value) + MembersFrom(v, i + 1)
  }

  function KeyText(i: nat, key: string): string {
    Comma(i) + ("\"" + key + "\":")
  }

  // ---- the reader takes what is written

  function TypeFor(v: Value): Type {
    match v
    case NullValue => Null
    case BoolValue(_) => Bool
    case NumberValue(_) => Number
    case TextValue(_) => Text
    case ArrayValue(_) => ArrayBegin
    case ObjectValue(_) => ObjectBegin
  }

  // The type of a value shows in the first character
  lemma FirstChar(v: Value)
    ensures |Written(v)| > 0 && TypeOf(Written(v)[0]) == TypeFor(v)
    ensures !IsSpace(Written(v)[0]) && Written(v)[0] != ',' && !(Written(v)[0] == '[' && !v.ArrayValue?)
  {
    hide ItemsFrom, MembersFrom, Escaped;
    if v.NumberValue? && v.number >= 0 {
      assert IsDigit(Digits(v.number)[0]);
    }
  }

  lemma Starts(t: string, i: nat, n: nat, v: Value)
    requires Here(t, i, Comma(n) + Written(v))
    ensures NextType(t, i) == TypeFor(v) && Push(t, i, n > 0) == At(i + |Comma(n)|)
  {
    hide Written;
    FirstChar(v);
    HereSplit(t, i, Comma(n), Written(v));
    var k := i + |Comma(n)|;
    assert t[k] == t[k..k + |Written(v)|][0];
    assert n > 0 ==> t[i] == t[i..i + 1][0] == ',';
    assert SkipSpace(t, k) == k && SkipSpace(t, i) == i;
  }

  lemma {:induction false} DigitsShort(n: nat, k: nat)
    requires k > 0 && n < Power(k)
    ensures |Digits(n)| <= k
    decreases n
  {
    if n >= 10 {
      assert k > 1;
      DigitsShort(n / 10, k - 1);
    }
  }

  lemma {:induction false} DigitsSkipped(t: string, i: nat, d: string)
    requires Here(t, i, d) && AllDigits(d) && !IsDigit(Peek(t, i + |d|))
    ensures SkipDigits(t, i) == i + |d|
    decreases |d|
  {
    if d != "" {
      assert t[i] == t[i..i + |d|][0] && t[i + 1..i + |d|] == t[i..i + |d|][1..];
      assert AllDigits(d[1..]);
      DigitsSkipped(t, i + 1, d[1..]);
    }
  }

  lemma PowerOfTwenty()
    ensures Power(20) > UINT64_MAX
  {
    assert Power(10) == 10_000_000_000;
    assert Power(20) == 10_000_000_000 * Power(10);
  }

  lemma NumberSkipped(t: string, i: nat, n: int)
    requires INT64_MIN <= n <= UINT64_MAX && Here(t, i, NumberText(n)) && !IsDigit(Peek(t, i + |NumberText(n)|))
    ensures SkipNumber(t, i) == At(i + |NumberText(n)|)
  {
    hide Digits, Decimal;
    var m: nat := if n < 0 then -n else n;
    var sign := if n < 0 then "-" else "";
    assert NumberText(n) == sign + Digits(m);
    HereSplit(t, i, sign, Digits(m));
    var from := i + |sign|;
    assert t[i] == t[i..i + |NumberText(n)|][0];
    assert n >= 0 ==> IsDigit(Digits(m)[0]);
    DigitsSkipped(t, from, Digits(m));
    PowerOfTwenty();
    DigitsShort(m, 20);
    DecimalOfDigits(m);
  }

  lemma QuoteSkipped(asserts: bool, t: string, i: nat, s: string)
    requires CString(s) && Here(t, i, Quote(s))
    ensures SkipString(asserts, t, i) == At(i + |Quote(s)|)
  {
    HereSplit(t, i, "\"", Escaped(s) + "\"");
    assert Quote(s) == "\"" + (Escaped(s) + "\"");
    assert t[i] == t[i..i + 1][0];
    StringBodyEscaped(s, t, i + 1);
  }

  lemma WordSkipped(t: string, k: nat, v: Value)
    requires (v.NullValue? || v.BoolValue?) && Here(t, k, Written(v))
    ensures v.NullValue? ==> SkipWord(t, k, "null") == At(k + |Written(v)|)
    ensures v.BoolValue? ==>
              (if SkipWord(t, k, "true").At? then SkipWord(t, k, "true") else SkipWord(t, k, "false"))
                  == At(k + |Written(v)|)
  {
    HereFirst(t, k, Written(v));
    if v == BoolValue(false) && k + 4 <= |t| {
      assert t[k..k + 4][0] == 'f';
    }
  }

  lemma ScalarSkipped(asserts: bool, t: string, k: nat, v: Value)
    requires Writable(v) && !v.ArrayValue? && !v.ObjectValue? && Here(t, k, Written(v)) && k < |t|
    requires !IsDigit(Peek(t, k + |Written(v)|))
    ensures match v
            case NullValue => SkipWord(t, k, "null") == At(k + |Written(v)|)
            case BoolValue(_) =>
              (if SkipWord(t, k, "true").At? then SkipWord(t, k, "true") else SkipWord(t, k, "false"))
                  == At(k + |Written(v)|)
            case NumberValue(_) => SkipNumber(t, k) == At(k + |Written(v)|)
            case TextValue(_) => SkipString(asserts, t, k) == At(k + |Written(v)|)
            case _ => true
  {
    hide SkipString, SkipNumber, SkipWord, Here;
    match v {
      case NumberValue(m) => NumberSkipped(t, k, m);
      case TextValue(s) => QuoteSkipped(asserts, t, k, s);
      case _ => WordSkipped(t, k, v);
    }
  }

  lemma HereKey(t: string, k: nat, key: string)
    requires PlainKey(key) && Here(t, k, "\"" + key + "\":")
    ensures k + |key| + 2 < |t| && t[k] == '"' && t[k + 1 + |key|] == '"' && t[k + 2 + |key|] == ':'
    ensures forall j :: k < j < k + 1 + |key| ==> t[j] !in {'"', '\\', '\0'}
  {
    var w := "\"" + key + "\":";
    var u := t[k..k + |w|];
    assert u[0] == t[k] && u[1 + |key|] == t[k + 1 + |key|] && u[2 + |key|] == t[k + 2 + |key|];
    forall j | k < j < k + 1 + |key|
      ensures t[j] !in {'"', '\\', '\0'}
    {
      assert t[j] == u[j - k] == w[j - k] == key[j - k - 1];
      assert key[j - k - 1] in key;
    }
  }

  // A key and the colon after it
  lemma KeySkipped(asserts: bool, t: string, i: nat, n: nat, key: string)
    requires PlainKey(key) && Here(t, i, KeyText(n, key))
    ensures NextType(t, i) == Text && SkipKey(asserts, t, i, n > 0) == At(i + |KeyText(n, key)|)
  {
    hide StringBody, Here, PlainKey;
    var k := i + |Comma(n)|;
    HereSplit(t, i, Comma(n), "\"" + key + "\":");
    HereKey(t, k, key);
    if n > 0 {
      HereFirst(t, i, ",");
    }
    assert SkipSpace(t, k) == k && SkipSpace(t, i) == i;
    BareString(t, k + 1, k + 1 + |key|);
    assert SkipSpace(t, k + |key| + 2) == k + |key| + 2;
  }

  // What follows a value inside a container is no digit
  lemma AfterItem(t: string, p: nat, v: Value, n: nat)
    requires v.ArrayValue? && n <= |v.items| && Here(t, p, ItemsFrom(v, n) + "]") && n > 0
    ensures !IsDigit(Peek(t, p))
  {
    HereFirst(t, p, ItemsFrom(v, n) + "]");
  }

  lemma AfterMember(t: string, p: nat, v: Value, n: nat)
    requires v.ObjectValue? && n <= |v.members| && Here(t, p, MembersFrom(v, n) + "}") && n > 0
    ensures !IsDigit(Peek(t, p))
  {
    HereFirst(t, p, MembersFrom(v, n) + "}");
  }

  lemma ItemsStep(v: Value, n: nat)
    requires v.ArrayValue? && n <= |v.items|
    ensures ItemsFrom(v, n) + "]"
         == if n == |v.items| then "]" else Comma(n) + Written(v.items[n]) + (ItemsFrom(v, n + 1) + "]")
  {
    hide Written, Comma;
    if n < |v.items| {
      Regroup(Comma(n) + Written(v.items[n]), ItemsFrom(v, n + 1), "]");
    }
  }

  lemma MembersStep(v: Value, n: nat)
    requires v.ObjectValue? && n <= |v.members|
    ensures MembersFrom(v, n) + "}"
         == if n == |v.members| then "}"
            else KeyText(n, v.members[n].key) + (Written(v.members[n].value) + (MembersFrom(v, n + 1) + "}"))
  {
    hide Written, KeyText;
    if n < |v.members| {
      var key, text := KeyText(n, v.members[n].key), Written(v.members[n].value);
      Regroup(key + text, MembersFrom(v, n + 1), "}");
      Regroup(key, text, MembersFrom(v, n + 1) + "}");
    }
  }

  lemma {:induction false} ValueSkipped(asserts: bool, t: string, i: nat, n: nat, v: Value)
    requires Writable(v) && Here(t, i, Comma(n) + Written(v))
    requires !IsDigit(Peek(t, i + |Comma(n) + Written(v)|))
    ensures SkipValue(asserts, t, i, n > 0) == At(i + |Comma(n) + Written(v)|)
    decreases v
  {
    hide SkipValue, SkipElements, SkipMembers, SkipString, SkipNumber, SkipWord, NextType, Push, Written, Comma, Here;
    Starts(t, i, n, v);
    HereSplit(t, i, Comma(n), Written(v));
    var k := i + |Comma(n)|;
    HereLength(t, k, Written(v));
    FirstChar(v);
    ValueBranch(asserts, t, i, n > 0, k);
    if v.ArrayValue? || v.ObjectValue? {
      InnerSkipped(asserts, t, k, v);
    } else {
      ScalarSkipped(asserts, t, k, v);
    }
  }

  // A container after its first character
  lemma {:induction false} InnerSkipped(asserts: bool, t: string, k: nat, v: Value)
    requires (v.ArrayValue? || v.ObjectValue?) && Writable(v) && Here(t, k, Written(v))
    ensures v.ArrayValue? ==> SkipElements(asserts, t, k + 1, false) == At(k + |Written(v)|)
    ensures v.ObjectValue? ==> SkipMembers(asserts, t, k + 1, false) == At(k + |Written(v)|)
    decreases v, 1 + if v.ArrayValue? then |v.items| else |v.members|
  {
    hide SkipElements, SkipMembers, ItemsFrom, MembersFrom, Here;
    if v.ArrayValue? {
      Regroup("[", ItemsFrom(v, 0), "]");
      HereSplit(t, k, "[", ItemsFrom(v, 0) + "]");
      ItemsSkipped(asserts, t, k + 1, v, 0);
    } else {
      Regroup("{", MembersFrom(v, 0), "}");
      HereSplit(t, k, "{", MembersFrom(v, 0) + "}");
      MembersSkipped(asserts, t, k + 1, v, 0);
    }
  }

  lemma OneItem(asserts: bool, t: string, i: nat, comma: bool, p: nat)
    requires i <= |t| && NextType(t, i) != ArrayEnd && p <= |t| && SkipValue(asserts, t, i, comma) == At(p)
    ensures SkipElements(asserts, t, i, comma) == SkipElements(asserts, t, p, true)
  {
    hide SkipValue, NextType;
  }

  lemma OneMemberMore(asserts: bool, t: string, i: nat, comma: bool, k: nat, p: nat)
    requires i <= |t| && NextType(t, i) != ObjectEnd && k <= |t| && p <= |t|
    requires SkipKey(asserts, t, i, comma) == At(k) && SkipValue(asserts, t, k, false) == At(p)
    ensures SkipMembers(asserts, t, i, comma) == SkipMembers(asserts, t, p, true)
  {
    hide SkipValue, SkipKey, NextType;
  }

  // The end of a container
  lemma EndSkipped(asserts: bool, t: string, i: nat, comma: bool)
    requires i < |t|
    ensures t[i] == ']' ==> SkipElements(asserts, t, i, comma) == At(i + 1)
    ensures t[i] == '}' ==> SkipMembers(asserts, t, i, comma) == At(i + 1)
  {
    hide SkipValue, SkipKey;
    if t[i] in {']', '}'} {
      assert SkipSpace(t, i) == i;
    }
  }

  lemma {:induction false} ItemsSkipped(asserts: bool, t: string, i: nat, v: Value, n: nat)
    requires v.ArrayValue? && Writable(v) && n <= |v.items| && Here(t, i, ItemsFrom(v, n) + "]")
    ensures SkipElements(asserts, t, i, n > 0) == At(i + |ItemsFrom(v, n) + "]"|)
    decreases v, |v.items| - n
  {
    hide SkipValue, SkipElements, NextType, Written, Comma, ItemsFrom, Here;
    ItemsStep(v, n);
    if n == |v.items| {
      HereFirst(t, i, "]");
      EndSkipped(asserts, t, i, n > 0);
    } else {
      var first, rest := Comma(n) + Written(v.items[n]), ItemsFrom(v, n + 1) + "]";
      HereSplit(t, i, first, rest);
      AfterItem(t, i + |first|, v, n + 1);
      Starts(t, i, n, v.items[n]);
      ValueSkipped(asserts, t, i, n, v.items[n]);
      HereLength(t, i + |first|, rest);
      OneItem(asserts, t, i, n > 0, i + |first|);
      ItemsSkipped(asserts, t, i + |first|, v, n + 1);
    }
  }

  lemma {:induction false} MembersSkipped(asserts: bool, t: string, i: nat, v: Value, n: nat)
    requires v.ObjectValue? && Writable(v) && n <= |v.members| && Here(t, i, MembersFrom(v, n) + "}")
    ensures SkipMembers(asserts, t, i, n > 0) == At(i + |MembersFrom(v, n) + "}"|)
    decreases v, |v.members| - n
  {
    hide SkipValue, SkipKey, SkipMembers, NextType, Written, KeyText, MembersFrom, Here;
    MembersStep(v, n);
    if n == |v.members| {
      HereFirst(t, i, "}");
      EndSkipped(asserts, t, i, n > 0);
    } else {
      var key, text := KeyText(n, v.members[n].key), Written(v.members[n].value);
      var rest := MembersFrom(v, n + 1) + "}";
      HereSplit(t, i, key, text + rest);
      HereSplit(t, i + |key|, text, rest);
      AfterMember(t, i + |key| + |text|, v, n + 1);
      KeySkipped(asserts, t, i, n, v.members[n].key);
      assert Comma(0) + text == text;
      ValueSkipped(asserts, t, i + |key|, 0, v.members[n].value);
      HereLength(t, i + |key| + |text|, rest);
      OneMemberMore(asserts, t, i, n > 0, i + |key|, i + |key| + |text|);
      MembersSkipped(asserts, t, i + |key| + |text|, v, n + 1);
    }
  }

  // Whatever is written is accepted by the reader, in any build
  lemma WrittenAccepted(asserts: bool, v: Value)
    requires Writable(v)
    ensures Accepted(asserts, Written(v))
  {
    hide SkipValue, Written;
    var t := Written(v);
    assert Comma(0) + t == t && t[0..0 + |t|] == t;
    ValueSkipped(asserts, t, 0, 0, v);
  }

  // ---- and it fits on a line

  predicate Clean(s: string) {
    '\n' !in s && CString(s)
  }

  lemma {:induction false} WrittenClean(v: Value)
    requires Writable(v)
    ensures Clean(Written(v))
    decreases v
  {
    hide ItemsFrom, MembersFrom, Digits, Quote;
    match v {
      case NumberValue(n) =>
        var d := Digits(if n < 0 then -n else n);
        assert forall c :: c in d ==> IsDigit(c);
      case ArrayValue(_) => ItemsClean(v, 0);
      case ObjectValue(_) => MembersClean(v, 0);
      case _ =>
    }
  }

  lemma {:induction false} ItemsClean(v: Value, n: nat)
    requires v.ArrayValue? && Writable(v) && n <= |v.items|
    ensures Clean(ItemsFrom(v, n))
    decreases v, |v.items| - n
  {
    hide Written;
    if n < |v.items| {
      WrittenClean(v.items[n]);
      ItemsClean(v, n + 1);
    }
  }

  lemma {:induction false} MembersClean(v: Value, n: nat)
    requires v.ObjectValue? && Writable(v) && n <= |v.members|
    ensures Clean(MembersFrom(v, n))
    decreases v, |v.members| - n
  {
    hide Written;
    if n < |v.members| {
      WrittenClean(v.members[n].value);
      MembersClean(v, n + 1);
      assert PlainKey(v.members[n].key);
      assert Letter('\n').Some?;
    }
  }
}
