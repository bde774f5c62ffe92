// What a load of an info file accepts: every line read, every value of the type it must have, and a last checksum that
// is the hash of everything else. And what that hash is taken of.
module InfoChecksum {
  import opened Decimals
  import opened Json
  import opened JsonLex
  import opened JsonStrings
  import opened JsonWrites
  import opened Options
  import opened Inis
  import opened Infos
  import opened InfoLoads
  import opened InfoProofs
  import opened Sequences

  predicate IsChecksum(e: Entry) {
    e.section == "backrest" && e.key == "backrest-checksum"
  }

  // Everything but the checksums
  function Others(entries: seq<Entry>): seq<Entry> {
    if entries == [] then []
    else (if IsChecksum(entries[0]) then [] else [entries[0]]) + Others(entries[1..])
  }

  // What belongs to the callback
  function Foreign(entries: seq<Entry>): seq<Entry> {
    if entries == [] then []
    else (if entries[0].section in {"backrest", "cipher"} then [] else [entries[0]]) + Foreign(entries[1..])
  }

  // The value of an entry has the type, and that of the format is 5
  predicate Fine(e: Entry) {
    && (e.section == "backrest" && e.key == "backrest-format" ==> Unsigned(e.value) == Some(5))
    && (e.section == "backrest" && e.key in {"backrest-version", "backrest-checksum"} ==> Unquote(e.value).Some?)
    && (e.section == "cipher" && e.key == "cipher-pass" ==> Unquote(e.value).Some?)
  }

  // For values that are no strings or containers: a number that is not negative is itself, null is no text, and nothing
  // else is either of the two
  lemma TypesExactly(value: string)
    requires value != "" && CString(value) && (forall c :: c in value ==> !IsSpace(c))
    requires TypeOf(value[0]) in {Type.Number, Type.Bool, Type.Null} && Accepted(true, value)
    ensures Unquote(value) == if value == "null" then Some(None) else None
    ensures Unsigned(value)
         == if Whole(value) && value[0] != '-' then Some(Decimal(WithoutSign(value))) else None
  {
    hide Whole, Fits64, Decimal, SkipNumber, SkipWord, Accepted;
    assert value[0] in value && SkipSpace(value, 0) == 0;
    ScalarExactly(true, value);
    NumberEnd(value);
    NullWord(value);
    FirstOfWhole(value);
    assert value[0..|value|] == value;
  }

  lemma NullWord(value: string)
    requires value == "null" || value == "true" || value == "false" || Whole(value)
    ensures SkipWord(value, 0, "null").At? <==> value == "null"
  {
    hide Whole;
    FirstOfWhole(value);
    if |value| >= 4 && value[0..4] == "null" {
      assert value[0] == value[0..4][0] == 'n';
    }
    assert "true"[0] == 't' && "false"[0] == 'f';
  }

  predicate Named(e: Entry, section: string, key: string) {
    e.section == section && e.key == key
  }

  // The last entry with a name holds the text, or null, or there is none
  ghost predicate LastText(entries: seq<Entry>, section: string, key: string, text: Option<string>) {
    if forall i :: 0 <= i < |entries| ==> !Named(entries[i], section, key) then text == None
    else
      exists i :: 0 <= i < |entries| && Named(entries[i], section, key) && Unquote(entries[i].value) == Some(text)
                  && forall j :: i < j < |entries| ==> !Named(entries[j], section, key)
  }

  // The same as the loop goes along
  function LastFrom(entries: seq<Entry>, section: string, key: string, text: Option<string>): Option<string>
    decreases |entries|
  {
    if entries == [] then text
    else
      var e := entries[0];
      LastFrom(entries[1..], section, key,
               if Named(e, section, key) && Unquote(e.value).Some? then Unquote(e.value).value else text)
  }

  lemma {:induction false} LastFromIs(entries: seq<Entry>, section: string, key: string, text: Option<string>)
    requires forall e :: e in entries && Named(e, section, key) ==> Unquote(e.value).Some?
    ensures
      if forall i :: 0 <= i < |entries| ==> !Named(entries[i], section, key) then
        LastFrom(entries, section, key, text) == text
      else
        exists i :: 0 <= i < |entries| && Named(entries[i], section, key)
                    && Unquote(entries[i].value) == Some(LastFrom(entries, section, key, text))
                    && forall j :: i < j < |entries| ==> !Named(entries[j], section, key)
    decreases |entries|
  {
    hide Unquote, Named;
    if entries != [] {
      var e := entries[0];
      var next := if Named(e, section, key) && Unquote(e.value).Some? then Unquote(e.value).value else text;
      assert e in entries && forall x :: x in entries[1..] ==> x in entries;
      LastFromIs(entries[1..], section, key, next);
      assert forall i :: 0 <= i < |entries[1..]| ==> entries[1..][i] == entries[i + 1];
      assert forall i :: 0 < i < |entries| ==> entries[i] == entries[1..][i - 1];
    }
  }

  lemma LastTextIs(entries: seq<Entry>, section: string, key: string, text: Option<string>)
    requires forall e :: e in entries && Named(e, section, key) ==> Unquote(e.value).Some?
    ensures LastText(entries, section, key, text) <==> LastFrom(entries, section, key, None) == text
  {
    hide Unquote, Named, LastFrom;
    LastFromIs(entries, section, key, None);
  }

  // ---- the loop

  // A load reads everything and then handles it entry by entry
  lemma {:induction false} LoadReads(asserts: bool, hash: string -> string, st: State, text: string, section: string)
    ensures
      var (entries, end) := ReadAll(asserts, text, section);
      && !end.Found?
      && LoadFrom(asserts, hash, st, text, section) ==
         match Steps(st, entries)
         case Wrong(error) => LoadFailed(error)
         case Next(st') => if end.Failed? then LoadFailed(ReadError(end.error)) else Verified(hash, st')
    decreases |text|
  {
    hide NextValue, Handle;
    var (outcome, rest, section') := NextValue(asserts, text, section);
    if outcome.Found? {
      var e := outcome.entry;
      var more := ReadAll(asserts, rest, section').0;
      assert ([e] + more)[1..] == more;
      LoadReads(asserts, hash, if Handle(st, e).Next? then Handle(st, e).state else st, rest, section');
    }
  }

  lemma LastStep(entries: seq<Entry>, section: string, key: string, text: Option<string>)
    requires entries != []
    ensures LastFrom([entries[0]], section, key, text)
         == if Named(entries[0], section, key) && Unquote(entries[0].value).Some? then Unquote(entries[0].value).value
            else text
    ensures LastFrom(entries, section, key, text)
         == LastFrom(entries[1..], section, key, LastFrom([entries[0]], section, key, text))
  {
    hide Unquote, Named;
    assert [entries[0]][1..] == [];
  }

  lemma ForeignStep(entries: seq<Entry>)
    requires entries != []
    ensures Foreign([entries[0]]) == if entries[0].section in {"backrest", "cipher"} then [] else [entries[0]]
    ensures Foreign(entries) == Foreign([entries[0]]) + Foreign(entries[1..])
  {
    assert [entries[0]][1..] == [];
  }

  lemma HandleIs(st: State, e: Entry)
    ensures Handle(st, e).Next? <==> Fine(e)
    ensures Handle(st, e).Next? ==> Content(Handle(st, e).state) == (
              LastFrom([e], "backrest", "backrest-version", st.version),
              LastFrom([e], "cipher", "cipher-pass", st.cipherPass),
              LastFrom([e], "backrest", "backrest-checksum", st.expected), st.given + Foreign([e]))
  {
    hide Unsigned, Unquote, Quote, LastFrom, Foreign;
    LastStep([e], "backrest", "backrest-version", st.version);
    LastStep([e], "cipher", "cipher-pass", st.cipherPass);
    LastStep([e], "backrest", "backrest-checksum", st.expected);
    ForeignStep([e]);
    assert st.given + [] == st.given;
  }

  lemma {:induction false} StepsAre(st: State, entries: seq<Entry>)
    ensures Steps(st, entries).Next? <==> forall e :: e in entries ==> Fine(e)
    ensures Steps(st, entries).Next? ==> Content(Steps(st, entries).state) == (
              LastFrom(entries, "backrest", "backrest-version", st.version),
              LastFrom(entries, "cipher", "cipher-pass", st.cipherPass),
              LastFrom(entries, "backrest", "backrest-checksum", st.expected), st.given + Foreign(entries))
    decreases |entries|
  {
    hide Handle, Fine;
    if entries == [] {
      assert st.given + [] == st.given;
    } else {
      hide LastFrom, Foreign;
      var e := entries[0];
      assert e in entries && forall x :: x in entries <==> x == e || x in entries[1..];
      HandleIs(st, e);
      if Handle(st, e).Next? {
        StepsAre(Handle(st, e).state, entries[1..]);
        LastStep(entries, "backrest", "backrest-version", st.version);
        LastStep(entries, "cipher", "cipher-pass", st.cipherPass);
        LastStep(entries, "backrest", "backrest-checksum", st.expected);
        ForeignStep(entries);
        Regroup(st.given, Foreign([e]), Foreign(entries[1..]));
      }
    }
  }

  // The hashed text is that of all other entries
  lemma {:induction false} StepsHashed(st: State, last: Option<string>, entries: seq<Entry>)
    requires st.sectionLast == SectionOf(last) && last != Some("")
    requires forall e :: e in entries ==> e.section != ""
    ensures Steps(st, entries).Next? ==>
              && Steps(st, entries).state.hashed == st.hashed + Hashed(last, Others(entries))
              && Steps(st, entries).state.sectionLast == SectionOf(LastSection(last, Others(entries)))
    decreases |entries|
  {
    hide Handle, HashText, LastSection, Quote;
    if entries == [] {
      LastNone(last);
      assert st.hashed + "" == st.hashed;
    } else {
      var e := entries[0];
      assert e in entries && forall x :: x in entries[1..] ==> x in entries;
      var step := Handle(st, e);
      if step.Next? {
        if IsChecksum(e) {
          ChecksumUnhashed(st, e);
          assert [] + Others(entries[1..]) == Others(entries[1..]);
          StepsHashed(step.state, last, entries[1..]);
        } else {
          SameHashOne(st, last, e);
          StepsHashed(step.state, Some(e.section), entries[1..]);
          HashedNext(last, e, Others(entries[1..]));
          Regroup(st.hashed, HashText(last, e), Hashed(Some(e.section), Others(entries[1..])));
        }
      }
    }
  }

  lemma LastNone(last: Option<string>)
    ensures LastSection(last, []) == last && Hashed(last, []) == ""
  {
  }

  lemma HashedNext(last: Option<string>, e: Entry, rest: seq<Entry>)
    ensures Hashed(last, [e] + rest) == HashText(last, e) + Hashed(Some(e.section), rest)
    ensures LastSection(last, [e] + rest) == LastSection(Some(e.section), rest)
  {
    hide HashText;
    assert ([e] + rest)[1..] == rest;
  }

  lemma ChecksumUnhashed(st: State, e: Entry)
    requires IsChecksum(e) && Handle(st, e).Next?
    ensures Handle(st, e).state.hashed == st.hashed && Handle(st, e).state.sectionLast == st.sectionLast
  {
    hide Unquote;
  }

  // An entry is only found in a section
  lemma {:induction false} NextNamed(asserts: bool, text: string, section: string)
    ensures
      var (outcome, rest, section') := NextValue(asserts, text, section);
      outcome.Found? ==> outcome.entry.section != ""
    decreases |text|
  {
    hide SplitOf, FirstLine;
    if text != "" {
      var (line, rest) := FirstLine(text);
      FirstShorter(text);
      if line == "" {
        NextNamed(asserts, rest, section);
      } else if IsHeader(line) && line[1..|line| - 1] != "" {
        NextNamed(asserts, rest, line[1..|line| - 1]);
      }
    }
  }

  lemma FirstShorter(text: string)
    requires text != ""
    ensures |FirstLine(text).1| < |text|
  {
  }

  lemma {:induction false} AllNamed(asserts: bool, text: string, section: string)
    ensures forall e :: e in ReadAll(asserts, text, section).0 ==> e.section != ""
    decreases |text|
  {
    hide NextValue;
    var (outcome, rest, section') := NextValue(asserts, text, section);
    NextNamed(asserts, text, section);
    if outcome.Found? {
      AllNamed(asserts, rest, section');
    }
  }

  // ---- what is accepted

  // A load gives these contents if and only if all lines were read, every value has its type, the version and the
  // passphrase are the last ones, the callback is given all else in order, and the last checksum is the hash of the
  // other entries
  lemma LoadedExactly(asserts: bool, hash: string -> string, text: string, info: Info, given: seq<Entry>)
    ensures
      var (entries, end) := ReadAll(asserts, text, "");
      LoadFrom(asserts, hash, START, text, "") == Loaded(info, given) <==>
      && end == Done && (forall e :: e in entries ==> Fine(e))
      && LastText(entries, "backrest", "backrest-version", info.version)
      && LastText(entries, "cipher", "cipher-pass", info.cipherPass)
      && LastText(entries, "backrest", "backrest-checksum", Some(hash(ChecksumText(Others(entries)))))
      && given == Foreign(entries)
  {
    hide Steps, Fine, LastText, ReadAll, LoadFrom, Hashed;
    var (entries, end) := ReadAll(asserts, text, "");
    LoadReads(asserts, hash, START, text, "");
    StepsAre(START, entries);
    if forall e :: e in entries ==> Fine(e) {
      FineTexts(entries);
      AllNamed(asserts, text, "");
      StepsHashed(START, None, entries);
      LastTextIs(entries, "backrest", "backrest-version", info.version);
      LastTextIs(entries, "cipher", "cipher-pass", info.cipherPass);
      LastTextIs(entries, "backrest", "backrest-checksum", Some(hash(ChecksumText(Others(entries)))));
      assert [] + Foreign(entries) == Foreign(entries);
    }
  }

  lemma FineTexts(entries: seq<Entry>)
    requires forall e :: e in entries ==> Fine(e)
    ensures forall e :: e in entries && Named(e, "backrest", "backrest-version") ==> Unquote(e.value).Some?
    ensures forall e :: e in entries && Named(e, "cipher", "cipher-pass") ==> Unquote(e.value).Some?
    ensures forall e :: e in entries && Named(e, "backrest", "backrest-checksum") ==> Unquote(e.value).Some?
  {
    hide Unquote, Unsigned;
  }

  // Where every line is read and every value has its type, a load only fails for its checksum: when the last one is
  // missing or null, or is not the hash
  lemma ChecksumRefused(asserts: bool, hash: string -> string, text: string)
    requires ReadAll(asserts, text, "").1 == Done && forall e :: e in ReadAll(asserts, text, "").0 ==> Fine(e)
    ensures
      var r, entries := LoadFrom(asserts, hash, START, text, ""), ReadAll(asserts, text, "").0;
      && (r == LoadFailed(ChecksumMissing) <==> LastText(entries, "backrest", "backrest-checksum", None))
      && (r == LoadFailed(ChecksumInvalid) <==>
          exists sum :: LastText(entries, "backrest", "backrest-checksum", Some(sum))
                        && sum != hash(ChecksumText(Others(entries))))
  {
    hide Steps, Fine, LastText, ReadAll, LoadFrom, Hashed;
    var entries := ReadAll(asserts, text, "").0;
    LoadReads(asserts, hash, START, text, "");
    StepsAre(START, entries);
    FineTexts(entries);
    AllNamed(asserts, text, "");
    StepsHashed(START, None, entries);
    var sum := LastFrom(entries, "backrest", "backrest-checksum", None);
    forall x
      ensures LastText(entries, "backrest", "backrest-checksum", x) <==> sum == x
    {
      LastTextIs(entries, "backrest", "backrest-checksum", x);
    }
  }

  // An error of a line or of the first value without its type comes before that
  lemma ReadRefused(asserts: bool, hash: string -> string, text: string)
    requires forall e :: e in ReadAll(asserts, text, "").0 ==> Fine(e)
    ensures
      var (entries, end) := ReadAll(asserts, text, "");
      forall error :: LoadFrom(asserts, hash, START, text, "") == LoadFailed(ReadError(error)) <==> end == Failed(error)
  {
    hide Steps, Fine, ReadAll, LoadFrom, Hashed;
    LoadReads(asserts, hash, START, text, "");
    StepsAre(START, ReadAll(asserts, text, "").0);
  }

  lemma Unfine(st: State, e: Entry)
    requires !Fine(e)
    ensures Handle(st, e)
         == Wrong(if e.key == "backrest-format" && Unsigned(e.value).Some? then WrongFormat else WrongType)
  {
    hide Unquote, Unsigned, Quote;
  }

  lemma {:induction false} FirstUnfine(st: State, entries: seq<Entry>, i: nat)
    requires i < |entries| && !Fine(entries[i]) && forall j :: 0 <= j < i ==> Fine(entries[j])
    ensures
      var e := entries[i];
      Steps(st, entries) ==
      Wrong(if e.key == "backrest-format" && Unsigned(e.value).Some? then WrongFormat else WrongType)
    decreases i
  {
    hide Handle, Fine, Unsigned;
    HandleIs(st, entries[0]);
    if i == 0 {
      Unfine(st, entries[0]);
    } else {
      assert entries[1..][i - 1] == entries[i];
      FirstUnfine(Handle(st, entries[0]).state, entries[1..], i - 1);
    }
  }

  lemma TypeRefused(asserts: bool, hash: string -> string, text: string, i: nat)
    requires
      var entries := ReadAll(asserts, text, "").0;
      i < |entries| && !Fine(entries[i]) && forall j :: 0 <= j < i ==> Fine(entries[j])
    ensures
      var e := ReadAll(asserts, text, "").0[i];
      LoadFrom(asserts, hash, START, text, "")
      == LoadFailed(if e.key == "backrest-format" && Unsigned(e.value).Some? then WrongFormat else WrongType)
  {
    hide Steps, Fine, ReadAll, LoadFrom, Unsigned;
    LoadReads(asserts, hash, START, text, "");
    FirstUnfine(START, ReadAll(asserts, text, "").0, i);
  }

  // A written file with any checksum at all loads if and only if that is the hash of what is written
  lemma WrittenChecksum(asserts: bool, hash: string -> string, entries: seq<Entry>, sum: string)
    requires forall e :: e in entries ==> Storable(e) && Splits(asserts, e) && !IsChecksum(e)
    requires Steps(START, entries).Next? && CString(sum)
    ensures
      var r := LoadFrom(asserts, hash, START, Render(None, entries) + ChecksumLines(sum), "");
      && (r == LoadFailed(ChecksumInvalid) <==> sum != hash(ChecksumText(entries)))
      && (r.Loaded? <==> sum == hash(ChecksumText(entries)))
  {
    hide Storable, Splits, Render, Hashed, LoadFrom, Steps, ChecksumLines;
    LoadRendered(asserts, hash, START, None, entries, ChecksumLines(sum));
    var st := Steps(START, entries).state;
    ChecksumRead(asserts, hash, st, SectionOf(LastSection(None, entries)), sum);
    forall e | e in entries
      ensures e.section != ""
    {
      NamesStored(e);
    }
    SameHash(START, None, entries);
  }

  // ---- what is hashed

  // A section with values, as a file has them in a row
  datatype Section = Section(name: string, items: seq<Item>)

  datatype Item = Item(key: string, value: Value)

  function ItemEntry(name: string, item: Item): Entry {
    Entry(name, item.key, Written(item.value))
  }

  function EntriesIn(name: string, items: seq<Item>): (r: seq<Entry>)
    ensures |r| == |items|
  {
    seq(|items|, i requires 0 <= i < |items| => ItemEntry(name, items[i]))
  }

  function Flat(sections: seq<Section>): seq<Entry> {
    if sections == [] then [] else EntriesIn(sections[0].name, sections[0].items) + Flat(sections[1..])
  }

  // The same as one value: an object of the sections, each an object of its values
  function ItemsValue(items: seq<Item>): (r: Value)
    ensures r.ObjectValue? && |r.members| == |items|
  {
    ObjectValue(seq(|items|, i requires 0 <= i < |items| => Member(Escaped(items[i].key), items[i].value)))
  }

  function Tree(sections: seq<Section>): (r: Value)
    ensures r.ObjectValue? && |r.members| == |sections|
  {
    ObjectValue(seq(|sections|, i requires 0 <= i < |sections| =>
      Member(sections[i].name, ItemsValue(sections[i].items))))
  }

  // Sections follow each other only when they differ, and none is empty
  ghost predicate InRow(sections: seq<Section>) {
    && (forall i :: 0 <= i < |sections| ==> sections[i].items != [])
    && (forall i :: 0 <= i < |sections| - 1 ==> sections[i].name != sections[i + 1].name)
  }

  // The values of one section after its first
  lemma {:induction false} HashedItems(name: string, items: seq<Item>, i: nat, rest: seq<Entry>)
    requires 0 < i <= |items|
    ensures Hashed(Some(name), EntriesIn(name, items)[i..] + rest)
         == MembersFrom(ItemsValue(items), i) + Hashed(Some(name), rest)
    decreases |items| - i
  {
    hide Written, Escaped;
    var entries := EntriesIn(name, items);
    if i == |items| {
      assert entries[i..] + rest == rest;
      assert MembersFrom(ItemsValue(items), i) == "";
    } else {
      var e := entries[i];
      assert entries[i..] == [e] + entries[i + 1..];
      Regroup([e], entries[i + 1..], rest);
      HashedNext(Some(name), e, entries[i + 1..] + rest);
      HashedItems(name, items, i + 1, rest);
      var key, value := items[i].key, Written(items[i].value);
      assert HashText(Some(name), e) == KeyText(i, Escaped(key)) + value by {
        ItemText(i, key, value);
      }
      Regroup(KeyText(i, Escaped(key)) + value, MembersFrom(ItemsValue(items), i + 1), Hashed(Some(name), rest));
    }
  }

  lemma ItemText(i: nat, key: string, value: string)
    requires i > 0
    ensures "," + Quote(key) + ":" + value == KeyText(i, Escaped(key)) + value
  {
    hide Escaped;
  }

  function Closing(i: nat): string {
    if i > 0 then "}" else ""
  }

  function SectionBefore(sections: seq<Section>, i: nat): Option<string>
    requires i <= |sections|
  {
    if i > 0 then Some(sections[i - 1].name) else None
  }

  lemma MembersFirst(items: seq<Item>)
    requires items != []
    ensures MembersFrom(ItemsValue(items), 0)
         == KeyText(0, Escaped(items[0].key)) + Written(items[0].value) + MembersFrom(ItemsValue(items), 1)
  {
    hide Written, Escaped, KeyText;
  }

  lemma FirstText(sections: seq<Section>, i: nat, item: Item)
    requires InRow(sections) && i < |sections|
    ensures HashText(SectionBefore(sections, i), ItemEntry(sections[i].name, item))
         == (Closing(i) + KeyText(i, sections[i].name) + "{") + (KeyText(0, Escaped(item.key)) + Written(item.value))
  {
    hide Written, Escaped, KeyText, HashHeader, Quote, Closing;
    var name, value := sections[i].name, Written(item.value);
    HeaderIs(SectionBefore(sections, i), i, name);
    FirstItemText(item.key, value);
    var open := Closing(i) + KeyText(i, name) + "{";
    assert open + Quote(item.key) + ":" + value == open + (Quote(item.key) + ":" + value);
  }

  // The first value of a section comes with the name of the section
  lemma HashedSection(sections: seq<Section>, i: nat, rest: seq<Entry>)
    requires InRow(sections) && i < |sections|
    ensures
      var name, items := sections[i].name, sections[i].items;
      Hashed(SectionBefore(sections, i), EntriesIn(name, items) + rest)
      == (Closing(i) + KeyText(i, name) + "{") + MembersFrom(ItemsValue(items), 0) + Hashed(Some(name), rest)
  {
    hide Written, Escaped, KeyText, Hashed, MembersFrom, HashText, Closing, SectionBefore, ItemsValue;
    var name, items, last := sections[i].name, sections[i].items, SectionBefore(sections, i);
    var entries := EntriesIn(name, items);
    var e := entries[0];
    assert entries == [e] + entries[1..];
    Regroup([e], entries[1..], rest);
    HashedNext(last, e, entries[1..] + rest);
    HashedItems(name, items, 1, rest);
    MembersFirst(items);
    FirstText(sections, i, items[0]);
    var more, after := MembersFrom(ItemsValue(items), 1), Hashed(Some(name), rest);
    var open, first := Closing(i) + KeyText(i, name) + "{", KeyText(0, Escaped(items[0].key)) + Written(items[0].value);
    Regroup(open + first, more, after);
    Regroup(open, first, more);
  }

  lemma HeaderIs(last: Option<string>, i: nat, name: string)
    requires last.Some? <==> i > 0
    requires last != Some(name)
    ensures HashHeader(last, name) == Closing(i) + KeyText(i, name) + "{"
  {
    if i > 0 {
      assert "}" + ("," + ("\"" + name + "\":")) + "{" == "}," + "\"" + name + "\":{";
    } else {
      assert "" + ("" + ("\"" + name + "\":")) + "{" == "" + "\"" + name + "\":{";
    }
  }

  lemma FirstItemText(key: string, value: string)
    ensures Quote(key) + ":" + value == KeyText(0, Escaped(key)) + value
  {
    hide Escaped;
  }

  lemma {:induction false} HashedFlat(sections: seq<Section>, i: nat)
    requires InRow(sections) && sections != [] && i <= |sections|
    ensures Hashed(SectionBefore(sections, i), Flat(sections[i..])) + "}" == Closing(i) + MembersFrom(Tree(sections), i)
    decreases |sections| - i
  {
    hide Written, Hashed, ItemsValue, EntriesIn;
    if i == |sections| {
      LastNone(SectionBefore(sections, i));
      assert Flat(sections[i..]) == [];
      assert MembersFrom(Tree(sections), i) == "";
    } else {
      var name, items := sections[i].name, sections[i].items;
      assert sections[i..][1..] == sections[i + 1..];
      HashedSection(sections, i, Flat(sections[i + 1..]));
      HashedFlat(sections, i + 1);
      var open, members := Closing(i) + KeyText(i, name) + "{", MembersFrom(ItemsValue(items), 0);
      var after, rest := Hashed(Some(name), Flat(sections[i + 1..])), MembersFrom(Tree(sections), i + 1);
      Regroup(open + members, after, "}");
      TreeNext(sections, i);
      Braces(Closing(i), KeyText(i, name), members, rest);
    }
  }

  lemma TreeNext(sections: seq<Section>, i: nat)
    requires i < |sections|
    ensures MembersFrom(Tree(sections), i)
         == KeyText(i, sections[i].name) + ("{" + MembersFrom(ItemsValue(sections[i].items), 0) + "}")
            + MembersFrom(Tree(sections), i + 1)
  {
    hide ItemsValue;
    assert Tree(sections).members[i] == Member(sections[i].name, ItemsValue(sections[i].items));
    ObjectText(ItemsValue(sections[i].items));
  }

  lemma ObjectText(v: Value)
    requires v.ObjectValue?
    ensures Written(v) == "{" + MembersFrom(v, 0) + "}"
  {
  }

  lemma Braces(closing: string, key: string, members: string, rest: string)
    ensures (closing + key + "{") + members + ("}" + rest) == closing + (key + ("{" + members + "}") + rest)
  {
  }

  // The text that is hashed is the file as one JSON value, each section an object of its values
  lemma HashedIsJson(sections: seq<Section>)
    requires InRow(sections) && sections != []
    ensures ChecksumText(Flat(sections)) == Written(Tree(sections))
  {
    hide Hashed, Flat, MembersFrom, Tree;
    HashedFlat(sections, 0);
    assert sections[0..] == sections;
    TreeText(sections);
    var hashed, members := Hashed(None, Flat(sections)), MembersFrom(Tree(sections), 0);
    assert hashed + "}" == members by {
      assert "" + members == members;
    }
    assert "{" + hashed + "}}" == "{" + (hashed + "}") + "}";
  }

  lemma TreeText(sections: seq<Section>)
    ensures Written(Tree(sections)) == "{" + MembersFrom(Tree(sections), 0) + "}"
  {
    ObjectText(Tree(sections));
  }
}
