// What a JSON text looks like to someone who only follows its quotes, and why that makes the strict split of an ini
// line on "=" unambiguous (common/ini.c:134-185).
module JsonLex {
  import opened Decimals
  import opened Json

  // Outside strings, inside one, or inside an escape of one
  datatype Place = Out | In | Esc

  // One character seen from one place. Outside strings "=" and "\" are never part of JSON. An escape may go on for some
  // characters, none of which is "=" unless it is the last one. Where asserts are compiled out the reader can mistake a
  // comma for an opening quote, so the opening quote itself may then close the string.
  predicate Next(asserts: bool, from: Place, c: char, to: Place) {
    match from
    case Out => c != '=' && c != '\\' && (to == (if c == '"' then In else Out) || (!asserts && c == '"' && to == Out))
    case In => to == (if c == '"' then Out else if c == '\\' then Esc else In)
    case Esc => to == In || (to == Esc && c != '=')
  }

  // The characters from i up to j lead from one place to the other
  ghost predicate Runs(asserts: bool, s: string, i: nat, j: nat, from: Place, to: Place)
    requires i <= j <= |s|
    decreases j - i
  {
    if i == j then from == to
    else exists mid :: Next(asserts, from, s[i], mid) && Runs(asserts, s, i + 1, j, mid, to)
  }

  lemma {:induction false} RunsJoin(asserts: bool, s: string, i: nat, j: nat, k: nat, from: Place, mid: Place,
                                    to: Place)
    requires i <= j <= k <= |s|
    requires Runs(asserts, s, i, j, from, mid) && Runs(asserts, s, j, k, mid, to)
    ensures Runs(asserts, s, i, k, from, to)
    decreases j - i
  {
    if i < j {
      var next :| Next(asserts, from, s[i], next) && Runs(asserts, s, i + 1, j, next, mid);
      RunsJoin(asserts, s, i + 1, j, k, next, mid, to);
    }
  }

  lemma {:induction false} RunsSplit(asserts: bool, s: string, i: nat, j: nat, k: nat, from: Place, to: Place)
    returns (mid: Place)
    requires i <= j <= k <= |s|
    requires Runs(asserts, s, i, k, from, to)
    ensures Runs(asserts, s, i, j, from, mid) && Runs(asserts, s, j, k, mid, to)
    decreases j - i
  {
    if i == j {
      mid := from;
    } else {
      var next :| Next(asserts, from, s[i], next) && Runs(asserts, s, i + 1, k, next, to);
      mid := RunsSplit(asserts, s, i + 1, j, k, next, to);
    }
  }

  // Two readers of the same characters, one inside a string where the other is outside, stay opposite to the end
  lemma {:induction false} Opposite(v: string, t: string, shift: nat, i: nat, from: Place, to: Place)
    requires i <= |v| && |t| == shift + |v| && t[shift..] == v
    requires from != Esc
    requires Runs(true, v, i, |v|, from, Out)
    requires Runs(true, t, shift + i, |t|, if from == In then Out else In, to)
    ensures to == In
    decreases |v| - i
  {
    if i < |v| {
      assert t[shift + i] == t[shift..][i] == v[i];
      var next :| Next(true, from, v[i], next) && Runs(true, v, i + 1, |v|, next, Out);
      var next' :| Next(true, if from == In then Out else In, t[shift + i], next') &&
                   Runs(true, t, shift + i + 1, |t|, next', to);
      Opposite(v, t, shift, i + 1, next, to);
    }
  }

  // A text that reads as JSON to the end never does so with anything and "=" before it: the quotes of the text then
  // open where they used to close
  lemma SplitUnambiguous(x: string, v: string, to: Place)
    requires Runs(true, v, 0, |v|, Out, Out)
    requires Runs(true, x + "=" + v, 0, |x + "=" + v|, Out, to)
    ensures to == In
  {
    var t := x + "=" + v;
    var at := RunsSplit(true, t, 0, |x|, |t|, Out, to);
    assert t[|x|] == '=';
    var next :| Next(true, at, t[|x|], next) && Runs(true, t, |x| + 1, |t|, next, to);
    assert t[|x| + 1..] == v;
    Opposite(v, t, |x| + 1, 0, Out, to);
  }

  // The same for a prefix without quotes, with or without asserts
  lemma {:induction false} NoQuoteStops(asserts: bool, x: string, v: string, i: nat, to: Place)
    requires i <= |x| && '"' !in x
    ensures !Runs(asserts, x + "=" + v, i, |x + "=" + v|, Out, to)
    decreases |x| - i
  {
    var t := x + "=" + v;
    if i == |x| {
      assert t[i] == '=';
    } else {
      assert t[i] == x[i] && x[i] in x;
      NoQuoteStops(asserts, x, v, i + 1, to);
    }
  }

  // ---- the reader follows the quotes

  predicate CString(s: string) {
    '\0' !in s
  }

  // What a walk from i that ends in r says about the quotes
  ghost predicate Follows(asserts: bool, s: string, i: nat, from: Place, r: Scan) {
    && (r.At? ==> i <= r.pos <= |s| && Runs(asserts, s, i, r.pos, from, Out))
    && (r == Stopped(Overrun) ==> i <= |s| && Runs(asserts, s, i, |s|, from, Esc))
  }

  // Characters that mean the same everywhere outside strings
  predicate Plain(c: char) {
    c != '"' && c != '=' && c != '\\'
  }

  lemma {:induction false} PlainRuns(asserts: bool, s: string, i: nat, j: nat)
    requires i <= j <= |s|
    requires forall k :: i <= k < j ==> Plain(s[k])
    ensures Runs(asserts, s, i, j, Out, Out)
    decreases j - i
  {
    if i < j {
      PlainRuns(asserts, s, i + 1, j);
      assert Next(asserts, Out, s[i], Out);
    }
  }

  lemma FollowsAfter(asserts: bool, s: string, i: nat, j: nat, from: Place, mid: Place, r: Scan)
    requires i <= j <= |s|
    requires Runs(asserts, s, i, j, from, mid)
    requires Follows(asserts, s, j, mid, r)
    ensures Follows(asserts, s, i, from, r)
  {
    if r.At? {
      RunsJoin(asserts, s, i, j, r.pos, from, mid, Out);
    } else if r == Stopped(Overrun) {
      RunsJoin(asserts, s, i, j, |s|, from, mid, Esc);
    }
  }

  lemma OneStep(asserts: bool, s: string, i: nat, from: Place, to: Place)
    requires i < |s|
    requires Next(asserts, from, s[i], to)
    ensures Runs(asserts, s, i, i + 1, from, to)
  {
    assert Runs(asserts, s, i + 1, i + 1, to, to);
  }

  // An escape runs over any characters that are not "="
  lemma {:induction false} EscapeRuns(asserts: bool, s: string, i: nat, j: nat)
    requires i <= j <= |s|
    requires forall k :: i <= k < j ==> s[k] != '='
    ensures Runs(asserts, s, i, j, Esc, Esc)
    decreases j - i
  {
    if i < j {
      EscapeRuns(asserts, s, i + 1, j);
      assert Next(asserts, Esc, s[i], Esc);
    }
  }

  lemma {:induction false} StringBodyFollows(asserts: bool, s: string, i: nat)
    requires CString(s) && i <= |s|
    ensures Follows(asserts, s, i, In, StringBody(s, i))
    decreases |s| - i
  {
    var r := StringBody(s, i);
    var c := Peek(s, i);
    if c == '"' {
      OneStep(asserts, s, i, In, Out);
    } else if c == '\\' {
      OneStep(asserts, s, i, In, Esc);
      var last := if Peek(s, i + 1) == 'u' then i + 6 else i + 1;
      if r != Malformed {
        var upto := if last < |s| then last else |s|;
        forall k | i + 1 <= k < upto
          ensures s[k] != '='
        {
          assert k == i + 1 || IsDigit(Peek(s, k));
        }
        EscapeRuns(asserts, s, i + 1, upto);
        RunsJoin(asserts, s, i, i + 1, upto, In, Esc, Esc);
        if last < |s| {
          OneStep(asserts, s, last, Esc, In);
          RunsJoin(asserts, s, i, last, last + 1, In, Esc, In);
          StringBodyFollows(asserts, s, last + 1);
          FollowsAfter(asserts, s, i, last + 1, In, In, r);
        }
      }
    } else if c != '\0' {
      OneStep(asserts, s, i, In, In);
      StringBodyFollows(asserts, s, i + 1);
      FollowsAfter(asserts, s, i, i + 1, In, In, r);
    }
  }

  // Spaces and a quote make an empty string where a comma was taken for the opening quote
  lemma {:induction false} BlankString(s: string, i: nat)
    requires CString(s) && i <= |s| && Peek(s, SkipSpace(s, i)) == '"'
    ensures StringBody(s, i) == At(SkipSpace(s, i) + 1)
    decreases |s| - i
  {
    if i < SkipSpace(s, i) {
      BlankString(s, i + 1);
    }
  }

  lemma SpaceRuns(asserts: bool, s: string, i: nat)
    requires i <= |s|
    ensures Runs(asserts, s, i, SkipSpace(s, i), Out, Out)
  {
    PlainRuns(asserts, s, i, SkipSpace(s, i));
  }

  lemma SkipStringFollows(asserts: bool, s: string, i: nat)
    requires CString(s) && i < |s|
    requires s[i] == '"' || (s[i] == ',' && Peek(s, SkipSpace(s, i + 1)) == '"')
    ensures Follows(asserts, s, i, Out, SkipString(asserts, s, i))
  {
    if s[i] == '"' {
      OneStep(asserts, s, i, Out, In);
      StringBodyFollows(asserts, s, i + 1);
      FollowsAfter(asserts, s, i, i + 1, Out, In, StringBody(s, i + 1));
    } else if !asserts {
      var k := SkipSpace(s, i + 1);
      BlankString(s, i + 1);
      PlainRuns(asserts, s, i, k);
      OneStep(asserts, s, k, Out, Out);
      RunsJoin(asserts, s, i, k, k + 1, Out, Out, Out);
    }
  }

  lemma SkipNumberFollows(asserts: bool, s: string, i: nat)
    requires i <= |s|
    ensures Follows(asserts, s, i, Out, SkipNumber(s, i))
  {
    if SkipNumber(s, i).At? {
      PlainRuns(asserts, s, i, SkipNumber(s, i).pos);
    }
  }

  lemma SkipWordFollows(asserts: bool, s: string, i: nat, word: string)
    requires |word| > 0 && forall c :: c in word ==> Plain(c)
    ensures Follows(asserts, s, i, Out, SkipWord(s, i, word))
  {
    var r := SkipWord(s, i, word);
    if r.At? {
      forall k | i <= k < r.pos
        ensures Plain(s[k])
      {
        assert s[k] == s[i..r.pos][k - i];
        assert s[k] in word;
      }
      PlainRuns(asserts, s, i, r.pos);
    }
  }

  lemma PushRuns(asserts: bool, s: string, i: nat, comma: bool)
    requires i <= |s| && Push(s, i, comma).At?
    ensures Runs(asserts, s, i, Push(s, i, comma).pos, Out, Out)
  {
    PlainRuns(asserts, s, i, Push(s, i, comma).pos);
  }

  // After a push the reader is at the value whose type was seen, or at a comma before it
  lemma Pushed(s: string, i: nat, comma: bool, p: nat)
    requires i <= |s| && Push(s, i, comma) == At(p)
    requires NextType(s, i) !in {ArrayEnd, ObjectEnd, Unknown}
    ensures p < |s|
    ensures if s[p] == ',' then TypeOf(Peek(s, SkipSpace(s, p + 1))) == NextType(s, i)
              else TypeOf(s[p]) == NextType(s, i)
  {
  }

  lemma SkipEndFollows(asserts: bool, s: string, i: nat, end: char)
    requires i <= |s| && end != '\0' && Plain(end)
    ensures Follows(asserts, s, i, Out, SkipEnd(s, i, end))
  {
    var r := SkipEnd(s, i, end);
    if r.At? {
      PlainRuns(asserts, s, i, r.pos);
    }
  }

  lemma SkipKeyFollows(asserts: bool, s: string, i: nat, comma: bool)
    requires CString(s) && i <= |s|
    ensures Follows(asserts, s, i, Out, SkipKey(asserts, s, i, comma))
  {
    hide StringBody, Runs, NextType, Push, SkipString;
    var p := Push(s, i, comma);
    if NextType(s, i) == Text && p.At? {
      Pushed(s, i, comma, p.pos);
      PushRuns(asserts, s, i, comma);
      SkipStringFollows(asserts, s, p.pos);
      var k := SkipString(asserts, s, p.pos);
      FollowsAfter(asserts, s, i, p.pos, Out, Out, k);
      if k.At? {
        SkipEndFollows(asserts, s, k.pos, ':');
        FollowsAfter(asserts, s, i, k.pos, Out, Out, SkipEnd(s, k.pos, ':'));
      }
    }
  }

  // By its type a value is skipped as it is
  lemma ValueBranch(asserts: bool, t: string, i: nat, comma: bool, k: nat)
    requires i <= |t| && k < |t| && Push(t, i, comma) == At(k)
    ensures var r := SkipValue(asserts, t, i, comma);
            match NextType(t, i)
            case Null => r == SkipWord(t, k, "null")
            case Bool => r == if SkipWord(t, k, "true").At? then SkipWord(t, k, "true") else SkipWord(t, k, "false")
            case Number => r == SkipNumber(t, k)
            case Text => r == SkipString(asserts, t, k)
            case ArrayBegin => r == SkipElements(asserts, t, k + 1, false)
            case ObjectBegin => r == SkipMembers(asserts, t, k + 1, false)
            case _ => r == Malformed
  {
    hide NextType, SkipNumber, SkipWord, SkipString, SkipElements, SkipMembers;
  }

  lemma SkipScalarFollows(asserts: bool, s: string, i: nat, comma: bool, p: nat)
    requires CString(s) && i <= |s|
    requires NextType(s, i) in {Text, Number, Bool, Null} && Push(s, i, comma) == At(p)
    ensures Follows(asserts, s, p, Out, SkipValue(asserts, s, i, comma))
  {
    hide StringBody, Runs, NextType, Push, SkipNumber, SkipString, SkipWord, Follows, SkipSpace, SkipValue;
    var t := NextType(s, i);
    Pushed(s, i, comma, p);
    ValueBranch(asserts, s, i, comma, p);
    if t == Text {
      SkipStringFollows(asserts, s, p);
    } else if t == Number {
      SkipNumberFollows(asserts, s, p);
    } else if t == Null {
      SkipWordFollows(asserts, s, p, "null");
    } else {
      SkipWordFollows(asserts, s, p, "true");
      SkipWordFollows(asserts, s, p, "false");
    }
  }

  lemma {:induction false} SkipValueFollows(asserts: bool, s: string, i: nat, comma: bool)
    requires CString(s) && i <= |s|
    ensures Follows(asserts, s, i, Out, SkipValue(asserts, s, i, comma))
    decreases |s| - i, 0
  {
    hide StringBody, Runs, NextType, Push, SkipNumber, SkipString, SkipWord, SkipSpace, SkipElements, SkipMembers;
    var t := NextType(s, i);
    var p := Push(s, i, comma);
    var r := SkipValue(asserts, s, i, comma);
    if t !in {ArrayEnd, ObjectEnd, Unknown} && p.At? {
      hide SkipValue, Follows;
      PushRuns(asserts, s, i, comma);
      if t in {ArrayBegin, ObjectBegin} {
        Pushed(s, i, comma, p.pos);
        ValueBranch(asserts, s, i, comma, p.pos);
        if t == ArrayBegin {
          SkipElementsFollows(asserts, s, p.pos + 1, false);
        } else {
          SkipMembersFollows(asserts, s, p.pos + 1, false);
        }
        ContainerFollows(asserts, s, p.pos, r);
      } else {
        SkipScalarFollows(asserts, s, i, comma, p.pos);
      }
      FollowsAfter(asserts, s, i, p.pos, Out, Out, r);
    }
  }

  // The first character of a container leaves the reader outside strings
  lemma ContainerFollows(asserts: bool, s: string, p: nat, r: Scan)
    requires p < |s| && Next(asserts, Out, s[p], Out) && Follows(asserts, s, p + 1, Out, r)
    ensures Follows(asserts, s, p, Out, r)
  {
    hide Follows;
    OneStep(asserts, s, p, Out, Out);
    FollowsAfter(asserts, s, p, p + 1, Out, Out, r);
  }

  lemma {:induction false} SkipElementsFollows(asserts: bool, s: string, i: nat, comma: bool)
    requires CString(s) && i <= |s|
    ensures Follows(asserts, s, i, Out, SkipElements(asserts, s, i, comma))
    decreases |s| - i, 1
  {
    hide StringBody, Runs;
    if NextType(s, i) == ArrayEnd {
      SkipEndFollows(asserts, s, i, ']');
    } else {
      var r := SkipValue(asserts, s, i, comma);
      SkipValueFollows(asserts, s, i, comma);
      if r.At? {
        SkipElementsFollows(asserts, s, r.pos, true);
        FollowsAfter(asserts, s, i, r.pos, Out, Out, SkipElements(asserts, s, r.pos, true));
      }
    }
  }

  lemma {:induction false} SkipMembersFollows(asserts: bool, s: string, i: nat, comma: bool)
    requires CString(s) && i <= |s|
    ensures Follows(asserts, s, i, Out, SkipMembers(asserts, s, i, comma))
    decreases |s| - i, 1
  {
    hide StringBody, Runs;
    if NextType(s, i) == ObjectEnd {
      SkipEndFollows(asserts, s, i, '}');
    } else {
      var k := SkipKey(asserts, s, i, comma);
      SkipKeyFollows(asserts, s, i, comma);
      if k.At? {
        var r := SkipValue(asserts, s, k.pos, false);
        SkipValueFollows(asserts, s, k.pos, false);
        FollowsAfter(asserts, s, i, k.pos, Out, Out, r);
        if r.At? {
          SkipMembersFollows(asserts, s, r.pos, true);
          FollowsAfter(asserts, s, i, r.pos, Out, Out, SkipMembers(asserts, s, r.pos, true));
        }
      }
    }
  }

  // An accepted text leads from outside strings to outside strings; a read past the end leaves it inside an escape
  lemma ValidateFollows(asserts: bool, s: string)
    requires CString(s)
    ensures Accepted(asserts, s) ==> Runs(asserts, s, 0, |s|, Out, Out)
    ensures Validate(asserts, s) == Stopped(Overrun) ==> Runs(asserts, s, 0, |s|, Out, Esc)
  {
    hide SkipValue, Runs;
    var r := SkipValue(asserts, s, 0, false);
    SkipValueFollows(asserts, s, 0, false);
    if Accepted(asserts, s) {
      SpaceRuns(asserts, s, r.pos);
      RunsJoin(asserts, s, 0, r.pos, |s|, Out, Out, Out);
    }
  }

  // ---- what the strict split rests on

  // A text with anything and "=" before it is never accepted when the text itself is, and the walk over it stays within
  // the text. So of all the splits of a line at "=" only one can be the written one, and it is found first unless an
  // earlier one ends in another error.
  lemma Unambiguous(x: string, v: string)
    requires CString(x) && CString(v) && Accepted(true, v)
    ensures !Accepted(true, x + "=" + v) && Validate(true, x + "=" + v) != Stopped(Overrun)
  {
    hide Validate, Runs;
    var t := x + "=" + v;
    ValidateFollows(true, v);
    ValidateFollows(true, t);
    if Accepted(true, t) {
      SplitUnambiguous(x, v, Out);
    }
    if Validate(true, t) == Stopped(Overrun) {
      SplitUnambiguous(x, v, Esc);
    }
  }

  // Without quotes before the "=" this needs no asserts
  lemma UnambiguousUnquoted(asserts: bool, x: string, v: string)
    requires CString(x) && CString(v) && '"' !in x
    ensures !Accepted(asserts, x + "=" + v) && Validate(asserts, x + "=" + v) != Stopped(Overrun)
  {
    hide Validate, Runs;
    ValidateFollows(asserts, x + "=" + v);
    NoQuoteStops(asserts, x, v, 0, Out);
    NoQuoteStops(asserts, x, v, 0, Esc);
  }

  lemma {:induction false} BareString(s: string, i: nat, j: nat)
    requires i <= j < |s| && s[j] == '"'
    requires forall k :: i <= k < j ==> s[k] !in {'"', '\\', '\0'}
    ensures StringBody(s, i) == At(j + 1)
    decreases j - i
  {
    if i < j {
      BareString(s, i + 1, j);
    }
  }

  lemma BareKey(asserts: bool, s: string, i: nat, j: nat)
    requires i < j && j + 1 < |s| && s[i] == '"' && s[j] == '"' && s[j + 1] == ':'
    requires forall k :: i < k < j ==> s[k] !in {'"', '\\', '\0'}
    ensures SkipKey(asserts, s, i, false) == At(j + 2)
    ensures i > 0 && s[i - 1] == ',' ==> SkipKey(asserts, s, i - 1, true) == At(j + 2)
  {
    hide StringBody;
    BareString(s, i + 1, j);
  }

  lemma OneMember(asserts: bool, s: string, i: nat, k: nat, v: nat)
    requires i < |s| && s[i] == '"' && k <= |s|
    requires SkipKey(asserts, s, i, false) == At(k) && SkipValue(asserts, s, k, false) == At(v)
    ensures SkipMembers(asserts, s, i, false) == SkipMembers(asserts, s, v, true)
  {
    hide SkipKey, SkipValue, SkipElements, SkipEnd;
  }

  lemma BareText(asserts: bool, s: string, i: nat, j: nat)
    requires i < j < |s| && s[i] == '"' && s[j] == '"'
    requires forall n :: i < n < j ==> s[n] !in {'"', '\\', '\0'}
    ensures SkipValue(asserts, s, i, false) == At(j + 1)
  {
    hide SkipMembers, SkipElements, StringBody;
    BareString(s, i + 1, j);
  }

  lemma LastMember(asserts: bool, s: string, i: nat)
    requires i < |s| && s[i] == '}'
    ensures SkipMembers(asserts, s, i, true) == At(i + 1)
  {
    hide SkipValue, SkipKey;
  }

  lemma BareMember(asserts: bool, s: string, i: nat, j: nat, k: nat)
    requires i < j && j + 2 < k < |s| - 1 && s[i] == '"' && s[j] == '"' && s[j + 1] == ':'
    requires forall n :: i < n < j ==> s[n] !in {'"', '\\', '\0'}
    requires s[j + 2] == '"' && s[k] == '"' && s[k + 1] == '}'
    requires forall n :: j + 2 < n < k ==> s[n] !in {'"', '\\', '\0'}
    ensures SkipMembers(asserts, s, i, false) == At(k + 2)
  {
    hide SkipKey, SkipValue, SkipMembers;
    BareKey(asserts, s, i, j);
    BareText(asserts, s, j + 2, k);
    OneMember(asserts, s, i, j + 2, k + 1);
    LastMember(asserts, s, k + 1);
  }

  const WRITTEN := "{\":1,\":\":,\"}"
  const BEFORE := "{\"x"

  // The comma before the last quote is taken for an opening quote
  lemma CommaForQuote(s: string)
    requires s == BEFORE + "=" + WRITTEN
    ensures SkipMembers(false, s, 8, true) == At(16)
  {
    hide StringBody, SkipKey, SkipValue, SkipElements, SkipEnd;
    assert s == "{\"x={\":1,\":\":,\"}";
    BareKey(false, s, 9, 11);
    CommaValue(s, 13);
    LastMember(false, s, 15);
  }

  // A comma and a quote are an empty string
  lemma CommaValue(s: string, i: nat)
    requires i + 1 < |s| && s[i] == ',' && s[i + 1] == '"'
    ensures SkipValue(false, s, i, false) == At(i + 2)
  {
    hide SkipMembers, SkipElements, StringBody;
    BareString(s, i + 1, i + 1);
  }

  lemma ObjectText(asserts: bool, s: string)
    requires |s| > 1 && s[0] == '{' && SkipMembers(asserts, s, 1, false) == At(|s|)
    ensures Accepted(asserts, s)
  {
    hide SkipMembers, SkipElements;
  }

  lemma DigitValue(asserts: bool, s: string, i: nat)
    requires i + 1 < |s| && s[i] == '1' && !IsDigit(s[i + 1])
    ensures SkipValue(asserts, s, i, false) == At(i + 1)
  {
    hide SkipMembers, SkipElements;
    assert s[i..i + 1] == "1" && Decimal("1") == 1;
  }

  lemma MisreadText(s: string)
    requires s == BEFORE + "=" + WRITTEN
    ensures SkipMembers(false, s, 1, false) == At(16)
  {
    hide SkipKey, SkipValue, SkipMembers, SkipElements, SkipEnd, StringBody, NextType, SkipSpace;
    assert s == "{\"x={\":1,\":\":,\"}";
    CommaForQuote(s);
    BareKey(false, s, 1, 5);
    DigitValue(false, s, 7);
    OneMember(false, s, 1, 7, 8);
  }

  // With asserts compiled out the law fails: a line with this value is also a value where its "=" is inside the key
  lemma AmbiguousWithoutAsserts()
    ensures Accepted(true, WRITTEN) && Accepted(false, WRITTEN) && Accepted(false, BEFORE + "=" + WRITTEN)
  {
    hide SkipMembers, Accepted;
    BareMember(true, WRITTEN, 1, 5, 10);
    BareMember(false, WRITTEN, 1, 5, 10);
    MisreadText(BEFORE + "=" + WRITTEN);
    ObjectText(true, WRITTEN);
    ObjectText(false, WRITTEN);
    ObjectText(false, BEFORE + "=" + WRITTEN);
  }

  // ---- asserts only ever replace the answer

  lemma StringAgrees(s: string, i: nat)
    requires i < |s|
    ensures SkipString(true, s, i) in {Stopped(Assertion), SkipString(false, s, i)}
  {
    hide StringBody;
  }

  lemma {:induction false} ValueAgrees(s: string, i: nat, comma: bool)
    requires i <= |s|
    ensures SkipValue(true, s, i, comma) in {Stopped(Assertion), SkipValue(false, s, i, comma)}
    decreases |s| - i, 0
  {
    hide SkipString, NextType, Push, SkipNumber, SkipWord, SkipSpace, SkipElements, SkipMembers;
    var t := NextType(s, i);
    var p := Push(s, i, comma);
    if p.At? && t !in {ArrayEnd, ObjectEnd, Unknown} {
      Pushed(s, i, comma, p.pos);
      ValueBranch(true, s, i, comma, p.pos);
      ValueBranch(false, s, i, comma, p.pos);
      hide SkipValue;
      StringAgrees(s, p.pos);
      ElementsAgree(s, p.pos + 1, false);
      MembersAgree(s, p.pos + 1, false);
    }
  }

  lemma {:induction false} ElementsAgree(s: string, i: nat, comma: bool)
    requires i <= |s|
    ensures SkipElements(true, s, i, comma) in {Stopped(Assertion), SkipElements(false, s, i, comma)}
    decreases |s| - i, 1
  {
    var r := SkipValue(true, s, i, comma);
    if NextType(s, i) != ArrayEnd {
      ValueAgrees(s, i, comma);
      if r.At? {
        ElementsAgree(s, r.pos, true);
      }
    }
  }

  lemma KeyAgrees(s: string, i: nat, comma: bool)
    requires i <= |s|
    ensures SkipKey(true, s, i, comma) in {Stopped(Assertion), SkipKey(false, s, i, comma)}
  {
    hide StringBody, SkipSpace, NextType;
    if Push(s, i, comma).At? && NextType(s, i) == Text {
      Pushed(s, i, comma, Push(s, i, comma).pos);
    }
  }

  lemma {:induction false} MembersAgree(s: string, i: nat, comma: bool)
    requires i <= |s|
    ensures SkipMembers(true, s, i, comma) in {Stopped(Assertion), SkipMembers(false, s, i, comma)}
    decreases |s| - i, 1
  {
    hide NextType, SkipEnd, SkipValue;
    var k := SkipKey(true, s, i, comma);
    KeyAgrees(s, i, comma);
    if NextType(s, i) != ObjectEnd && k.At? {
      hide SkipKey;
      var r := SkipValue(true, s, k.pos, false);
      ValueAgrees(s, k.pos, false);
      if r.At? {
        MembersAgree(s, r.pos, true);
      }
    }
  }

  // A production build answers as a test build does, except where the test build stops on an assert
  lemma AssertsAgree(s: string)
    ensures Validate(true, s) in {Stopped(Assertion), Validate(false, s)}
  {
    ValueAgrees(s, 0, false);
  }

  // With asserts compiled out only a text with a quote before the "=" that fails the assert can break the law
  lemma AmbiguousOnlyOnAssert(x: string, v: string)
    requires CString(x) && CString(v) && Accepted(true, v) && Accepted(false, x + "=" + v)
    ensures Validate(true, x + "=" + v) == Stopped(Assertion) && '"' in x
  {
    hide Validate;
    Unambiguous(x, v);
    AssertsAgree(x + "=" + v);
    if '"' !in x {
      UnambiguousUnquoted(false, x, v);
    }
  }

  // ---- and the values written never look like the end of a section line

  lemma {:induction false} MembersEnd(asserts: bool, s: string, i: nat, comma: bool)
    requires i <= |s|
    ensures SkipMembers(asserts, s, i, comma).At? ==> s[SkipMembers(asserts, s, i, comma).pos - 1] == '}'
    decreases |s| - i
  {
    hide SkipKey, SkipValue;
    var k := SkipKey(asserts, s, i, comma);
    if NextType(s, i) != ObjectEnd && k.At? {
      var r := SkipValue(asserts, s, k.pos, false);
      if r.At? {
        MembersEnd(asserts, s, r.pos, true);
      }
    }
  }

  lemma ValueEnd(asserts: bool, s: string)
    requires |s| > 0 && s[0] != '[' && s[0] != ',' && !IsSpace(s[0])
    ensures SkipValue(asserts, s, 0, false).At? ==> s[SkipValue(asserts, s, 0, false).pos - 1] != ']'
  {
    hide StringBody, SkipNumber, SkipMembers, SkipElements;
    assert SkipSpace(s, 0) == 0;
    MembersEnd(asserts, s, 1, false);
  }

  // An accepted value ends in "]" only if it starts with "[", or with a space or comma that could hide it
  lemma NoArrayEnd(asserts: bool, s: string)
    requires CString(s) && Accepted(asserts, s)
    requires s[0] != '[' && s[0] != ',' && !IsSpace(s[0])
    ensures s[|s| - 1] != ']'
  {
    hide SkipValue;
    var r := SkipValue(asserts, s, 0, false);
    ValueEnd(asserts, s);
    assert r.At? && SkipSpace(s, r.pos) == |s|;
    if r.pos < |s| {
      assert IsSpace(s[|s| - 1]);
    }
  }

  // ---- values that are neither strings nor containers

  // The digits of a number, whose sign is apart
  function WithoutSign(s: string): string {
    if s != "" && s[0] == '-' then s[1..] else s
  }

  // A whole number of fewer than 64 digits
  predicate Whole(s: string) {
    0 < |WithoutSign(s)| < 64 && forall k :: 0 <= k < |WithoutSign(s)| ==> IsDigit(WithoutSign(s)[k])
  }

  // It is no less than the least signed and no greater than the greatest unsigned number of 64 bits
  predicate Fits64(s: string)
    requires Whole(s)
  {
    Decimal(WithoutSign(s)) <= if s[0] == '-' then 0x8000_0000_0000_0000 else 0xFFFF_FFFF_FFFF_FFFF
  }

  lemma DigitsEnd(s: string, i: nat)
    requires i <= |s|
    ensures SkipDigits(s, i) == |s| <==> forall k :: i <= k < |s| ==> IsDigit(s[k])
    ensures SkipDigits(s, i) < |s| ==> !IsDigit(s[SkipDigits(s, i)])
    decreases |s| - i
  {
    if i < |s| && IsDigit(s[i]) {
      DigitsEnd(s, i + 1);
    }
  }

  lemma NumberEnd(s: string)
    requires s != ""
    ensures SkipNumber(s, 0) == At(|s|) <==> Whole(s) && Fits64(s)
    ensures Whole(s) && !Fits64(s) ==> SkipNumber(s, 0) == Stopped(OutOfRange)
  {
    var from := if s[0] == '-' then 1 else 0;
    DigitsEnd(s, from);
    assert WithoutSign(s) == s[from..];
    if Whole(s) {
      assert forall k :: from <= k < |s| ==> s[k] == WithoutSign(s)[k - from];
      assert s[from..|s|] == s[from..];
    } else if forall k :: from <= k < |s| ==> IsDigit(s[k]) {
      assert forall k :: 0 <= k < |WithoutSign(s)| ==> WithoutSign(s)[k] == s[from + k];
    }
    hide Decimal;
  }

  lemma WordEnd(s: string, word: string)
    requires word != ""
    ensures SkipWord(s, 0, word) == At(|s|) <==> s == word
  {
    assert s[0..|s|] == s;
  }

  lemma FirstOfWhole(s: string)
    ensures s != "" && Whole(s) ==> TypeOf(s[0]) == Number
    ensures TypeOf("true"[0]) == TypeOf("false"[0]) == Bool && TypeOf("null"[0]) == Null
  {
  }

  // Without space a value is the whole text exactly when it ends there
  lemma ValidateEnd(asserts: bool, s: string)
    requires s != "" && CString(s) && (forall c :: c in s ==> !IsSpace(c))
    ensures Accepted(asserts, s) <==> SkipValue(asserts, s, 0, false) == At(|s|)
    ensures SkipValue(asserts, s, 0, false).Stopped? ==> Validate(asserts, s) == SkipValue(asserts, s, 0, false)
  {
    hide SkipValue;
    var r := SkipValue(asserts, s, 0, false);
    if r.At? && r.pos < |s| {
      assert s[r.pos] in s && SkipSpace(s, r.pos) == r.pos;
    }
  }

  // Apart from strings, arrays and objects exactly three words and the whole numbers of 64 bits are accepted
  lemma ScalarExactly(asserts: bool, s: string)
    requires s != "" && CString(s) && (forall c :: c in s ==> !IsSpace(c))
    requires TypeOf(s[0]) in {Number, Bool, Null}
    ensures Accepted(asserts, s) <==> s == "true" || s == "false" || s == "null" || (Whole(s) && Fits64(s))
    ensures Whole(s) && !Fits64(s) ==> Validate(asserts, s) == Stopped(OutOfRange)
  {
    hide SkipNumber, SkipWord, Whole, Fits64, SkipElements, SkipMembers, SkipString, Validate, Accepted;
    assert s[0] in s && SkipSpace(s, 0) == 0;
    NumberEnd(s);
    WordEnd(s, "true");
    WordEnd(s, "false");
    WordEnd(s, "null");
    FirstOfWhole(s);
    ValidateEnd(asserts, s);
  }
}
