// The grammar of RFC 8259 as a recogniser, to state the law the strict ini reader rests on for JSON itself and not only
// for the reader that approximates it. Space is as in section 2, numbers as in section 6 and strings as in section 7.
module JsonGrammar {
  import opened Decimals
  import opened Json
  import opened JsonLex

  function Chars(s: string, i: nat): (r: Scan)
    requires i <= |s|
    ensures !r.Stopped?
    ensures r.At? ==> i < r.pos <= |s|
    decreases |s| - i
  {
    var c := Peek(s, i);
    if c == '"' then At(i + 1)
    else if c == '\\' then
      var e := Peek(s, i + 1);
      if e in {'"', '\\', '/', 'b', 'f', 'n', 'r', 't'} then Chars(s, i + 2)
      else if e == 'u' && forall k :: i + 2 <= k < i + 6 ==> IsHexDigit(Peek(s, k)) then
        assert IsHexDigit(Peek(s, i + 5));
        Chars(s, i + 6)
      else Malformed
    else if c < ' ' then Malformed
    else Chars(s, i + 1)
  }

  // One or more digits
  function Digits(s: string, i: nat): (r: Scan)
    ensures !r.Stopped?
    ensures r.At? ==> i < r.pos <= |s| && forall k :: i <= k < r.pos ==> IsDigit(s[k])
  {
    if i < |s| && SkipDigits(s, i) > i then At(SkipDigits(s, i)) else Malformed
  }

  function Integer(s: string, i: nat): (r: Scan)
    ensures !r.Stopped?
    ensures r.At? ==> i < r.pos <= |s| && forall k :: i <= k < r.pos ==> IsDigit(s[k])
  {
    if Peek(s, i) == '0' then At(i + 1) else Digits(s, i)
  }

  function Fraction(s: string, i: nat): (r: Scan)
    requires i <= |s|
    ensures !r.Stopped?
    ensures r.At? ==> i <= r.pos <= |s| && forall k :: i <= k < r.pos ==> Plain(s[k])
  {
    if Peek(s, i) == '.' then Digits(s, i + 1) else At(i)
  }

  function Exponent(s: string, i: nat): (r: Scan)
    requires i <= |s|
    ensures !r.Stopped?
    ensures r.At? ==> i <= r.pos <= |s| && forall k :: i <= k < r.pos ==> Plain(s[k])
  {
    if Peek(s, i) in {'e', 'E'} then Digits(s, if Peek(s, i + 1) in {'+', '-'} then i + 2 else i + 1) else At(i)
  }

  function Numeral(s: string, i: nat): (r: Scan)
    requires i <= |s|
    ensures !r.Stopped?
    ensures r.At? ==> i < r.pos <= |s| && forall k :: i <= k < r.pos ==> Plain(s[k])
  {
    var n := Integer(s, if Peek(s, i) == '-' then i + 1 else i);
    if !n.At? then Malformed
    else
      var f := Fraction(s, n.pos);
      if f.At? then Exponent(s, f.pos) else Malformed
  }

  function Value(s: string, i: nat): (r: Scan)
    requires i <= |s|
    ensures !r.Stopped?
    ensures r.At? ==> i < r.pos <= |s|
    decreases |s| - i, 0
  {
    var c := Peek(s, i);
    if c == '"' then Chars(s, i + 1)
    else if c == 't' then SkipWord(s, i, "true")
    else if c == 'f' then SkipWord(s, i, "false")
    else if c == 'n' then SkipWord(s, i, "null")
    else if c == '[' then
      var j := SkipSpace(s, i + 1);
      if Peek(s, j) == ']' then At(j + 1) else Elements(s, j)
    else if c == '{' then
      var j := SkipSpace(s, i + 1);
      if Peek(s, j) == '}' then At(j + 1) else Members(s, j)
    else Numeral(s, i)
  }

  // A value, space, and the end or a comma and more of the same
  function Elements(s: string, i: nat): (r: Scan)
    requires i <= |s|
    ensures !r.Stopped?
    ensures r.At? ==> i < r.pos <= |s|
    decreases |s| - i, 1
  {
    var v := Value(s, i);
    if !v.At? then Malformed
    else
      var j := SkipSpace(s, v.pos);
      if Peek(s, j) == ']' then At(j + 1)
      else if Peek(s, j) == ',' then Elements(s, SkipSpace(s, j + 1))
      else Malformed
  }

  function Name(s: string, i: nat): (r: Scan)
    requires i <= |s|
    ensures !r.Stopped?
    ensures r.At? ==> i < r.pos <= |s|
  {
    if Peek(s, i) != '"' then Malformed
    else
      var k := Chars(s, i + 1);
      if !k.At? then Malformed
      else
        var j := SkipSpace(s, k.pos);
        if Peek(s, j) == ':' then At(SkipSpace(s, j + 1)) else Malformed
  }

  function Members(s: string, i: nat): (r: Scan)
    requires i <= |s|
    ensures !r.Stopped?
    ensures r.At? ==> i < r.pos <= |s|
    decreases |s| - i, 1
  {
    var k := Name(s, i);
    if !k.At? then Malformed
    else
      var v := Value(s, k.pos);
      if !v.At? then Malformed
      else
        var j := SkipSpace(s, v.pos);
        if Peek(s, j) == '}' then At(j + 1)
        else if Peek(s, j) == ',' then Members(s, SkipSpace(s, j + 1))
        else Malformed
  }

  predicate Valid(s: string) {
    var v := Value(s, SkipSpace(s, 0));
    v.At? && SkipSpace(s, v.pos) == |s|
  }

  // ---- the grammar follows the quotes

  lemma {:induction false} CharsFollow(s: string, i: nat)
    requires i <= |s|
    ensures Follows(true, s, i, In, Chars(s, i))
    decreases |s| - i
  {
    var r := Chars(s, i);
    if r.At? {
      var c := s[i];
      if c == '"' {
        OneStep(true, s, i, In, Out);
      } else if c == '\\' {
        OneStep(true, s, i, In, Esc);
        var last := if s[i + 1] == 'u' then i + 5 else i + 1;
        forall k | i + 1 <= k < last
          ensures s[k] != '='
        {
          assert k == i + 1 || IsHexDigit(Peek(s, k));
        }
        EscapeRuns(true, s, i + 1, last);
        RunsJoin(true, s, i, i + 1, last, In, Esc, Esc);
        OneStep(true, s, last, Esc, In);
        RunsJoin(true, s, i, last, last + 1, In, Esc, In);
        CharsFollow(s, last + 1);
        FollowsAfter(true, s, i, last + 1, In, In, r);
      } else {
        OneStep(true, s, i, In, In);
        CharsFollow(s, i + 1);
        FollowsAfter(true, s, i, i + 1, In, In, r);
      }
    }
  }

  // Plain characters up to j, and then a walk
  lemma FollowsPlain(s: string, i: nat, j: nat, r: Scan)
    requires i <= j <= |s| && !r.Stopped?
    requires forall k :: i <= k < j ==> Plain(s[k])
    requires Follows(true, s, j, Out, r)
    ensures Follows(true, s, i, Out, r)
  {
    PlainRuns(true, s, i, j);
    FollowsAfter(true, s, i, j, Out, Out, r);
  }

  lemma FollowsString(s: string, i: nat)
    requires i < |s| && s[i] == '"'
    ensures Follows(true, s, i, Out, Chars(s, i + 1))
  {
    OneStep(true, s, i, Out, In);
    CharsFollow(s, i + 1);
    FollowsAfter(true, s, i, i + 1, Out, In, Chars(s, i + 1));
  }

  lemma FollowsPlainEnd(s: string, i: nat, j: nat)
    requires i <= j <= |s|
    requires forall k :: i <= k < j ==> Plain(s[k])
    ensures Follows(true, s, i, Out, At(j))
  {
    PlainRuns(true, s, i, j);
  }

  lemma {:induction false} ValueFollows(s: string, i: nat)
    requires i <= |s|
    ensures Follows(true, s, i, Out, Value(s, i))
    decreases |s| - i, 0
  {
    hide Chars, Runs, Follows, Numeral, SkipWord;
    var c := Peek(s, i);
    if c == '"' {
      FollowsString(s, i);
    } else if c in {'t', 'f', 'n'} {
      SkipWordFollows(true, s, i, "true");
      SkipWordFollows(true, s, i, "false");
      SkipWordFollows(true, s, i, "null");
    } else if c in {'[', '{'} {
      var j := SkipSpace(s, i + 1);
      if Peek(s, j) in {']', '}'} {
        FollowsPlainEnd(s, i, j + 1);
      }
      ElementsFollow(s, j);
      MembersFollow(s, j);
      FollowsPlain(s, i, j, Elements(s, j));
      FollowsPlain(s, i, j, Members(s, j));
    } else if Numeral(s, i).At? {
      FollowsPlainEnd(s, i, Numeral(s, i).pos);
    } else {
      MalformedFollows(s, i);
    }
  }

  lemma MalformedFollows(s: string, i: nat)
    ensures Follows(true, s, i, Out, Malformed)
  {
  }

  // After a value: space, and the end or a comma and more
  lemma AfterValue(s: string, i: nat, v: nat, end: char, more: Scan)
    requires i <= v <= |s| && !more.Stopped? && end in {']', '}'}
    requires Follows(true, s, i, Out, At(v))
    requires Peek(s, SkipSpace(s, v)) == ',' ==> Follows(true, s, SkipSpace(s, SkipSpace(s, v) + 1), Out, more)
    ensures Peek(s, SkipSpace(s, v)) == end ==> Follows(true, s, i, Out, At(SkipSpace(s, v) + 1))
    ensures Peek(s, SkipSpace(s, v)) == ',' ==> Follows(true, s, i, Out, more)
  {
    var j := SkipSpace(s, v);
    if Peek(s, j) == end {
      FollowsPlainEnd(s, v, j + 1);
      FollowsAfter(true, s, i, v, Out, Out, At(j + 1));
    }
    if Peek(s, j) == ',' {
      FollowsPlain(s, v, SkipSpace(s, j + 1), more);
      FollowsAfter(true, s, i, v, Out, Out, more);
    }
  }

  lemma {:induction false} ElementsFollow(s: string, i: nat)
    requires i <= |s|
    ensures Follows(true, s, i, Out, Elements(s, i))
    decreases |s| - i, 1
  {
    hide Chars, Runs, Follows, Value;
    MalformedFollows(s, i);
    var v := Value(s, i);
    ValueFollows(s, i);
    if v.At? {
      var j := SkipSpace(s, v.pos);
      if Peek(s, j) == ',' {
        ElementsFollow(s, SkipSpace(s, j + 1));
        AfterValue(s, i, v.pos, ']', Elements(s, SkipSpace(s, j + 1)));
      } else {
        AfterValue(s, i, v.pos, ']', Malformed);
      }
    }
  }

  lemma {:induction false} MembersFollow(s: string, i: nat)
    requires i <= |s|
    ensures Follows(true, s, i, Out, Members(s, i))
    decreases |s| - i, 1
  {
    hide Chars, Runs, Follows, Value, Name;
    MalformedFollows(s, i);
    var k := Name(s, i);
    NameFollows(s, i);
    if k.At? {
      var v := Value(s, k.pos);
      ValueFollows(s, k.pos);
      if v.At? {
        FollowsNext(s, i, k.pos, v);
        var j := SkipSpace(s, v.pos);
        if Peek(s, j) == ',' {
          MembersFollow(s, SkipSpace(s, j + 1));
          AfterValue(s, i, v.pos, '}', Members(s, SkipSpace(s, j + 1)));
        } else {
          AfterValue(s, i, v.pos, '}', Malformed);
        }
      }
    }
  }

  lemma FollowsNext(s: string, i: nat, k: nat, r: Scan)
    requires i <= k <= |s|
    requires Follows(true, s, i, Out, At(k)) && Follows(true, s, k, Out, r)
    ensures Follows(true, s, i, Out, r)
  {
    FollowsAfter(true, s, i, k, Out, Out, r);
  }

  lemma NameFollows(s: string, i: nat)
    requires i <= |s|
    ensures Follows(true, s, i, Out, Name(s, i))
  {
    hide Chars, Runs;
    if Peek(s, i) == '"' && Name(s, i).At? {
      var k := Chars(s, i + 1);
      FollowsString(s, i);
      FollowsPlainEnd(s, k.pos, Name(s, i).pos);
      FollowsAfter(true, s, i, k.pos, Out, Out, Name(s, i));
    }
  }

  lemma ValidRuns(s: string)
    requires Valid(s)
    ensures Runs(true, s, 0, |s|, Out, Out)
  {
    hide Runs, Value;
    var i := SkipSpace(s, 0);
    var v := Value(s, i);
    ValueFollows(s, i);
    FollowsPlain(s, 0, i, v);
    FollowsPlainEnd(s, v.pos, |s|);
    FollowsAfter(true, s, 0, v.pos, Out, Out, At(|s|));
  }

  // No JSON text is JSON with anything and "=" before it
  lemma SplitUnique(x: string, v: string)
    requires Valid(v)
    ensures !Valid(x + "=" + v)
  {
    ValidRuns(v);
    if Valid(x + "=" + v) {
      ValidRuns(x + "=" + v);
      SplitUnambiguous(x, v, Out);
    }
  }
}
