// common/ini.c: what each line of a text does, and which split of a line is taken.
module IniLines {
  import opened Json
  import opened JsonLex
  import opened Inis
  import opened Strings

  // ---- one line of a text

  lemma LineRead(line: string, rest: string)
    requires '\n' !in line
    ensures FirstLine(line + "\n" + rest) == (line, rest)
  {
    var text := line + "\n" + rest;
    assert forall k :: 0 <= k < |line| ==> text[k] == line[k];
    FindIs(text, '\n', 0, |line|);
    assert text[..|line|] == line;
    assert text[|line| + 1..] == rest;
  }

  lemma BlankRead(asserts: bool, rest: string, section: string)
    ensures NextValue(asserts, "\n" + rest, section) == NextValue(asserts, rest, section)
  {
    hide SplitOf, FirstLine;
    LineRead("", rest);
    assert "" + "\n" + rest == "\n" + rest;
  }

  lemma HeaderRead(asserts: bool, name: string, rest: string, section: string)
    requires name != "" && '\n' !in name
    ensures NextValue(asserts, "[" + name + "]\n" + rest, section) == NextValue(asserts, rest, name)
  {
    hide SplitOf, FirstLine;
    var line := "[" + name + "]";
    LineRead(line, rest);
    assert line + "\n" + rest == "[" + name + "]\n" + rest;
    assert IsHeader(line) && line[1..|line| - 1] == name;
  }

  // A line that is neither blank nor a section line is an error before the first section, and else is split
  lemma NextExactly(asserts: bool, line: string, rest: string, section: string)
    requires '\n' !in line && line != ""
    ensures
      var r := NextValue(asserts, line + "\n" + rest, section);
      if line[0] == '[' && line[|line| - 1] == ']' then
        if |line| <= 2 then r == (Failed(EmptySection), rest, "")
        else r == NextValue(asserts, rest, line[1..|line| - 1])
      else if section == "" then r == (Failed(OutsideSection), rest, section)
      else
        var split := SplitOf(asserts, line);
        r == (if split.Broken? then Failed(split.error) else Found(Entry(section, split.key, split.value)), rest,
              section)
  {
    hide SplitOf, FirstLine;
    LineRead(line, rest);
  }

  // The last line may do without its linefeed
  lemma LastLine(asserts: bool, line: string, section: string)
    requires '\n' !in line
    ensures NextValue(asserts, line, section) == NextValue(asserts, line + "\n", section)
  {
    hide SplitOf;
    LineRead(line, "");
    assert line + "\n" + "" == line + "\n";
    FindIs(line, '\n', 0, |line|);
    assert line[..|line|] == line;
  }

  // ---- the split of any line

  // The first "=" after which there is not just something malformed
  ghost predicate TakenAt(asserts: bool, line: string, p: nat) {
    && p < |line| && line[p] == '=' && Validate(asserts, line[p + 1..]) != Malformed
    && forall q: nat :: q < p && line[q] == '=' ==> Validate(asserts, line[q + 1..]) == Malformed
  }

  lemma {:induction false} SplitFromIs(asserts: bool, line: string, at: nat, p: nat)
    requires at < |line| && line[at] == '='
    requires forall q: nat :: q < at && line[q] == '=' ==> Validate(asserts, line[q + 1..]) == Malformed
    ensures TakenAt(asserts, line, p) ==>
              SplitFrom(asserts, line, at) ==
              match Validate(asserts, line[p + 1..])
              case Stopped(why) => Broken(Reader(why))
              case _ => Key(line[..p], line[p + 1..])
    ensures SplitFrom(asserts, line, at) == Broken(InvalidJson) <==>
            forall q: nat :: q < |line| && line[q] == '=' ==> Validate(asserts, line[q + 1..]) == Malformed
    decreases |line| - at
  {
    hide Validate, Find;
    if Validate(asserts, line[at + 1..]) == Malformed {
      var next := Find(line, '=', at + 1);
      if next < |line| {
        SplitFromIs(asserts, line, next, p);
      }
    }
  }

  // Any line at all is split at the first such "=", and is an error when there is none, when the reader stops after it,
  // or when there is nothing before it
  lemma LineSplitExactly(asserts: bool, line: string, p: nat)
    ensures SplitOf(asserts, line) == Broken(MissingEquals) <==> '=' !in line
    ensures SplitOf(asserts, line) == Broken(InvalidJson) <==>
            '=' in line && forall q: nat :: q < |line| && line[q] == '=' ==>
                             Validate(asserts, line[q + 1..]) == Malformed
    ensures TakenAt(asserts, line, p) ==>
              SplitOf(asserts, line) ==
              match Validate(asserts, line[p + 1..])
              case Stopped(why) => Broken(Reader(why))
              case _ => if p == 0 then Broken(EmptyKey) else Key(line[..p], line[p + 1..])
  {
    hide Validate, Find, SplitFrom;
    var at := Find(line, '=', 0);
    if at < |line| {
      SplitFromIs(asserts, line, at, p);
      SplitErrors(asserts, line, at);
    }
  }

  lemma {:induction false} SplitErrors(asserts: bool, line: string, at: nat)
    requires at < |line|
    ensures SplitFrom(asserts, line, at).Broken? ==>
              SplitFrom(asserts, line, at).error == InvalidJson || SplitFrom(asserts, line, at).error.Reader?
    decreases |line| - at
  {
    hide Validate, Find;
    var next := Find(line, '=', at + 1);
    if next < |line| {
      SplitErrors(asserts, line, next);
    }
  }
}
