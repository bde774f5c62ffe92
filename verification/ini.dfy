// common/ini.c in strict mode: a file is read line by line and every value must be JSON.
module Inis {
  import opened Decimals
  import opened Json
  import opened JsonLex
  import opened Strings

  datatype Entry = Entry(section: string, key: string, value: string)

  datatype Error = EmptySection | OutsideSection | MissingEquals | InvalidJson | EmptyKey | Reader(why: Stop)

  datatype Outcome = Found(entry: Entry) | Done | Failed(error: Error)

  // Where the line is split when the search starts with the "=" at position at
  datatype Split = Key(key: string, value: string) | Broken(error: Error)

  function SplitFrom(asserts: bool, line: string, at: nat): Split
    requires at < |line|
    decreases |line| - at
  {
    match Validate(asserts, line[at + 1..])
    case At(_) => Key(line[..at], line[at + 1..])
    case Stopped(why) => Broken(Reader(why))
    case Malformed =>
      var next := Find(line, '=', at + 1);
      if next == |line| then Broken(InvalidJson) else SplitFrom(asserts, line, next)
  }

  function SplitOf(asserts: bool, line: string): Split {
    var at := Find(line, '=', 0);
    if at == |line| then Broken(MissingEquals)
    else
      var r := SplitFrom(asserts, line, at);
      if r.Key? && r.key == "" then Broken(EmptyKey) else r
  }

  predicate IsHeader(line: string) {
    |line| > 0 && line[0] == '[' && line[|line| - 1] == ']'
  }

  // The first line of a text and what follows it. The last line may lack its linefeed.
  function FirstLine(text: string): (r: (string, string))
    ensures text != "" ==> |r.1| < |text|
  {
    var n := Find(text, '\n', 0);
    (text[..n], if n < |text| then text[n + 1..] else "")
  }

  // What the next call gives for an unread text in a section, the unread text it leaves and the section it ends in
  function NextValue(asserts: bool, text: string, section: string): (r: (Outcome, string, string))
    ensures r.0.Found? ==> |r.1| < |text|
    decreases |text|
  {
    if text == "" then (Done, text, section)
    else
      var (line, rest) := FirstLine(text);
      if line == "" then NextValue(asserts, rest, section)
      else if IsHeader(line) then
        var name := line[1..|line| - 1];
        if name == "" then (Failed(EmptySection), rest, name) else NextValue(asserts, rest, name)
      else if section == "" then (Failed(OutsideSection), rest, section)
      else match SplitOf(asserts, line)
        case Broken(error) => (Failed(error), rest, section)
        case Key(key, value) => (Found(Entry(section, key, value)), rest, section)
  }

  // Everything a text gives until its end or an error
  function ReadAll(asserts: bool, text: string, section: string): (seq<Entry>, Outcome)
    decreases |text|
  {
    var (outcome, rest, section') := NextValue(asserts, text, section);
    if outcome.Found? then
      var (entries, end) := ReadAll(asserts, rest, section');
      ([outcome.entry] + entries, end)
    else ([], outcome)
  }

  class Ini {
    const asserts: bool
    var read: string
    var section: string
    var key: string
    var value: string

    constructor (asserts: bool, text: string)
      ensures this.asserts == asserts && read == text && section == ""
    {
      this.asserts := asserts;
      read, section, key, value := text, "", "", "";
    }

    // ioReadLine
    method ReadLine() returns (line: string)
      requires read != ""
      modifies this`read
      ensures (line, read) == FirstLine(old(read))
    {
      var n := 0;
      while n < |read| && read[n] != '\n'
        invariant n <= |read| && forall k :: 0 <= k < n ==> read[k] != '\n'
      {
        n := n + 1;
      }
      FindIs(read, '\n', 0, n);
      line := read[..n];
      read := if n < |read| then read[n + 1..] else "";
    }

    // The retry loop: the key grows by one "=" at a time until the rest of the line is JSON
    method SplitLine(line: string) returns (r: Split)
      modifies this`key, this`value
      ensures r == SplitOf(asserts, line)
      ensures r.Key? ==> key == r.key && value == r.value
    {
      var at := Find(line, '=', 0);
      ghost var first := at;
      if at == |line| {
        return Broken(MissingEquals);
      }
      var retry := true;
      while retry
        invariant retry ==> at < |line| && SplitFrom(asserts, line, at) == SplitFrom(asserts, line, first)
        invariant !retry ==> SplitFrom(asserts, line, first) == Key(key, value)
        decreases retry, |line| - at
      {
        retry := false;
        key, value := line[..at], line[at + 1..];
        match Validate(asserts, value) {
          case At(_) =>
          case Stopped(why) => return Broken(Reader(why));
          case Malformed =>
            at := Find(line, '=', at + 1);
            if at == |line| {
              return Broken(InvalidJson);
            }
            retry := true;
        }
      }
      if key == "" {
        return Broken(EmptyKey);
      }
      return Key(key, value);
    }

    // iniValueNext
    method ValueNext() returns (r: Outcome)
      modifies this
      ensures (r, read, section) == NextValue(asserts, old(read), old(section))
      ensures r.Found? ==> r.entry == Entry(section, key, value)
    {
      r := Done;
      while r == Done && read != ""
        invariant r == Done ==> NextValue(asserts, read, section) == NextValue(asserts, old(read), old(section))
        invariant r.Found? ==> r.entry == Entry(section, key, value)
        invariant r != Done ==> (r, read, section) == NextValue(asserts, old(read), old(section))
        decreases |read|
      {
        var line := ReadLine();
        if line != "" {
          if IsHeader(line) {
            section := line[1..|line| - 1];
            if section == "" {
              return Failed(EmptySection);
            }
          } else {
            if section == "" {
              return Failed(OutsideSection);
            }
            var split := SplitLine(line);
            r := if split.Key? then Found(Entry(section, key, value)) else Failed(split.error);
          }
        }
      }
    }
  }

  // ---- the strict split undoes what the writer does

  // What the line gives as a value when it is split at the "=" at position p of the key
  function RestOf(key: string, value: string, p: nat): string
    requires p < |key|
  {
    key[p + 1..] + "=" + value
  }

  // From position at on, every split inside the key fails as JSON
  ghost predicate Passes(asserts: bool, key: string, value: string, at: nat) {
    forall p :: at <= p < |key| && key[p] == '=' ==> Validate(asserts, RestOf(key, value, p)) == Malformed
  }

  // Some split inside the key ends in an error the retry loop does not catch
  ghost predicate Stops(asserts: bool, key: string, value: string) {
    exists p :: 0 <= p < |key| && key[p] == '=' && Validate(asserts, RestOf(key, value, p)).Stopped?
  }

  // The first "=" of the key from at on whose split does not fail as JSON, or the end of the key when there is none
  function FirstTaken(asserts: bool, key: string, value: string, at: nat): (r: nat)
    requires at <= |key|
    ensures at <= r <= |key|
    ensures r < |key| ==> key[r] == '=' && Validate(asserts, RestOf(key, value, r)) != Malformed
    ensures forall p :: at <= p < r && key[p] == '=' ==> Validate(asserts, RestOf(key, value, p)) == Malformed
    decreases |key| - at
  {
    if at == |key| || (key[at] == '=' && Validate(asserts, RestOf(key, value, at)) != Malformed) then at
    else FirstTaken(asserts, key, value, at + 1)
  }

  // What the split at position p of the line gives
  function SplitAt(asserts: bool, key: string, value: string, p: nat): Split
    requires p <= |key|
  {
    if p == |key| then Key(key, value)
    else
      var rest := RestOf(key, value, p);
      match Validate(asserts, rest)
      case Stopped(why) => Broken(Reader(why))
      case _ => if p == 0 then Broken(EmptyKey) else Key(key[..p], rest)
  }

  lemma {:induction false} SplitFromTaken(asserts: bool, key: string, value: string, at: nat)
    requires Accepted(asserts, value)
    requires at <= |key| && (at < |key| ==> key[at] == '=')
    ensures
      var p := FirstTaken(asserts, key, value, at);
      SplitFrom(asserts, key + "=" + value, at)
      == if p < |key| && Accepted(asserts, RestOf(key, value, p)) then Key(key[..p], RestOf(key, value, p))
         else SplitAt(asserts, key, value, p)
    decreases |key| - at
  {
    hide Validate, Find, FirstTaken;
    var line := key + "=" + value;
    var p := FirstTaken(asserts, key, value, at);
    if at == |key| {
      assert line[at + 1..] == value && line[..at] == key;
    } else {
      assert line[at + 1..] == RestOf(key, value, at) && line[..at] == key[..at];
      if Validate(asserts, RestOf(key, value, at)) == Malformed {
        var next := Find(line, '=', at + 1);
        assert line[|key|] == '=';
        SplitFromTaken(asserts, key, value, next);
        assert p < |key| ==> line[p] == '=';
        assert p == FirstTaken(asserts, key, value, next);
      }
    }
  }

  // A written line splits into exactly its key and value if and only if every split inside the key fails as JSON. Else
  // it splits at the first one that does not: into another key, or into an error.
  lemma SplitExact(asserts: bool, key: string, value: string)
    requires key != "" && Accepted(asserts, value)
    ensures SplitOf(asserts, key + "=" + value) == Key(key, value) <==> Passes(asserts, key, value, 0)
    ensures SplitOf(asserts, key + "=" + value) == SplitAt(asserts, key, value, FirstTaken(asserts, key, value, 0))
  {
    hide Validate, Find, SplitFrom, FirstTaken;
    var line := key + "=" + value;
    assert line[|key|] == '=';
    var at := Find(line, '=', 0);
    assert at <= |key| && (at < |key| ==> key[at] == line[at]);
    SplitFromTaken(asserts, key, value, at);
    FromFirst(asserts, key, value, at);
    PassesWhole(asserts, key, value);
    hide Passes, RestOf;
  }

  lemma PassesWhole(asserts: bool, key: string, value: string)
    ensures Passes(asserts, key, value, 0) <==> FirstTaken(asserts, key, value, 0) == |key|
  {
    hide Validate, FirstTaken;
  }

  // Before the first "=" there is nothing to take
  lemma FromFirst(asserts: bool, key: string, value: string, at: nat)
    requires at == Find(key + "=" + value, '=', 0) && at <= |key|
    ensures FirstTaken(asserts, key, value, 0) == FirstTaken(asserts, key, value, at)
  {
    hide Validate, Find, FirstTaken;
    var line := key + "=" + value;
    var p := FirstTaken(asserts, key, value, 0);
    assert p < |key| ==> line[p] == '=';
  }

  // With asserts nothing inside the key is taken for a value, so the line splits into exactly its key and value,
  // however many "=" the key holds, unless the reader stops inside the key; then the line is an error and never another
  // key
  lemma SplitExactly(key: string, value: string)
    requires key != "" && CString(key) && CString(value) && Accepted(true, value)
    ensures SplitOf(true, key + "=" + value) == Key(key, value) <==> !Stops(true, key, value)
    ensures Stops(true, key, value) ==>
              SplitOf(true, key + "=" + value).Broken? && SplitOf(true, key + "=" + value).error.Reader?
  {
    hide Validate, SplitOf, FirstTaken;
    forall p | 0 <= p < |key| && key[p] == '='
      ensures !Accepted(true, RestOf(key, value, p))
    {
      Unambiguous(key[p + 1..], value);
    }
    SplitExact(true, key, value);
  }

  // With asserts compiled out the same holds for keys without quotes
  lemma SplitExactlyUnquoted(asserts: bool, key: string, value: string)
    requires key != "" && CString(key) && CString(value) && Accepted(asserts, value) && '"' !in key
    ensures SplitOf(asserts, key + "=" + value) == Key(key, value) <==> !Stops(asserts, key, value)
    ensures Stops(asserts, key, value) ==>
              SplitOf(asserts, key + "=" + value).Broken? && SplitOf(asserts, key + "=" + value).error.Reader?
  {
    hide Validate, SplitOf, FirstTaken;
    forall p | 0 <= p < |key| && key[p] == '='
      ensures !Accepted(asserts, RestOf(key, value, p))
    {
      UnambiguousUnquoted(asserts, key[p + 1..], value);
    }
    SplitExact(asserts, key, value);
  }

  // And for any key when the reader with asserts would not stop inside it
  lemma SplitWithoutAsserts(key: string, value: string)
    requires key != "" && CString(key) && CString(value) && Accepted(true, value) && !Stops(true, key, value)
    ensures SplitOf(false, key + "=" + value) == Key(key, value)
  {
    hide Validate, SplitOf, FirstTaken;
    AssertsAgree(value);
    forall p | 0 <= p < |key| && key[p] == '='
      ensures Validate(false, RestOf(key, value, p)) == Malformed
    {
      Unambiguous(key[p + 1..], value);
      AssertsAgree(RestOf(key, value, p));
    }
    SplitExact(false, key, value);
  }

  lemma RestIs(key: string, value: string, p: nat)
    requires p < |key| && CString(key)
    ensures RestOf(key, value, p) == key[p + 1..] + "=" + value && CString(key[p + 1..])
  {
  }

  // A production build reads another key than the one written only where the reader with asserts fails the assert on an
  // opening quote, and there is a quote in the key after that "="
  lemma MisreadOnlyOnAssert(key: string, value: string, other: string, rest: string)
    requires key != "" && CString(key) && CString(value) && Accepted(true, value)
    requires SplitOf(false, key + "=" + value) == Key(other, rest) && other != key
    ensures
      var p := FirstTaken(false, key, value, 0);
      && p < |key| && other == key[..p] && rest == RestOf(key, value, p)
      && Validate(true, rest) == Stopped(Assertion) && '"' in key[p + 1..]
  {
    hide Validate, SplitOf, FirstTaken, Passes;
    AssertsAgree(value);
    SplitExact(false, key, value);
    var p := FirstTaken(false, key, value, 0);
    assert p < |key| && Accepted(false, RestOf(key, value, p)) && rest == RestOf(key, value, p) && other == key[..p];
    hide SplitAt, RestOf;
    RestIs(key, value, p);
    AmbiguousOnlyOnAssert(key[p + 1..], value);
  }

  // It does read another key for this line
  lemma SplitMisreads()
    ensures Accepted(true, WRITTEN) && SplitOf(false, "k=" + BEFORE + "=" + WRITTEN) == Key("k", BEFORE + "=" + WRITTEN)
    ensures !Passes(false, "k=" + BEFORE, WRITTEN, 0)
  {
    hide Validate, Passes;
    AmbiguousWithoutAsserts();
    SplitsAtFirst();
    SplitExact(false, "k=" + BEFORE, WRITTEN);
  }

  lemma SplitsAtFirst()
    requires Accepted(false, BEFORE + "=" + WRITTEN)
    ensures SplitOf(false, "k=" + BEFORE + "=" + WRITTEN) == Key("k", BEFORE + "=" + WRITTEN)
  {
    hide Validate;
    var line := "k=" + BEFORE + "=" + WRITTEN;
    assert line[0] == 'k' && line[1] == '=';
    assert line[2..] == BEFORE + "=" + WRITTEN && line[..1] == "k";
  }

  // And it reads the key written for this one, although the reader with asserts stops inside it
  lemma SplitDespiteStop(key: string, value: string)
    requires key == "k=,\"" && value == "1"
    ensures Stops(true, key, value) && SplitOf(false, key + "=" + value) == Key(key, value)
  {
    hide SkipElements, SkipMembers, SkipWord, SplitOf, FirstTaken;
    var rest := RestOf(key, value, 1);
    assert rest == ",\"=1";
    assert Validate(true, rest) == Stopped(Assertion);
    assert Validate(false, rest) == Malformed by {
      CommaValue(rest, 0);
      hide SkipValue;
    }
    assert value[0..1] == "1" && Decimal("1") == 1;
    assert SkipValue(false, value, 0, false) == At(1);
    SplitExact(false, key, value);
  }

  // And a number too big for 64 bits right after an "=" of the key ends the load of the whole file
  lemma SplitStopsOnNumber(key: string, value: string)
    requires key == "a=99999999999999999999" && value == "1"
    ensures Stops(true, key, value)
  {
    hide StringBody, SkipElements, SkipMembers, Decimal;
    var rest := RestOf(key, value, 1);
    assert rest == "99999999999999999999=1";
    assert SkipDigits(rest, 0) == 20 by {
      SkipDigitsTo(rest, 0, 20);
    }
    assert rest[0..20] == "99999999999999999999";
    BigNumber(rest[0..20]);
    assert SkipNumber(rest, 0) == Stopped(OutOfRange);
    assert SkipValue(true, rest, 0, false) == Stopped(OutOfRange);
  }

  lemma {:induction false} SkipDigitsTo(s: string, i: nat, j: nat)
    requires i <= j < |s| && !IsDigit(s[j])
    requires forall k :: i <= k < j ==> IsDigit(s[k])
    ensures SkipDigits(s, i) == j
    decreases j - i
  {
    if i < j {
      SkipDigitsTo(s, i + 1, j);
    }
  }

  // Twenty nines
  lemma BigNumber(s: string)
    requires |s| == 20 && forall k :: 0 <= k < 20 ==> s[k] == '9'
    ensures Decimal(s) > UINT64_MAX
  {
    Nines(s, 20);
    assert Power(7) == 10_000_000;
    assert Power(14) == 10_000_000 * Power(7);
    assert Power(20) == 1_000_000 * Power(14);
  }

  lemma {:induction false} Nines(s: string, n: nat)
    requires |s| == n && forall k :: 0 <= k < n ==> s[k] == '9'
    ensures Decimal(s) == Power(n) - 1
  {
    if n > 0 {
      Nines(s[..n - 1], n - 1);
    }
  }
}
