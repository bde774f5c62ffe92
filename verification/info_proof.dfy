// What saving and loading an info file promise together: sections in order, each written once, the same hashed text
// built by both loops, and a file that loads back to what was saved.
module InfoProofs {
  import opened Decimals
  import opened Json
  import opened JsonLex
  import opened JsonStrings
  import JsonWrites
  import opened Options
  import opened Inis
  import opened IniLines
  import opened Infos
  import opened InfoLoads
  import opened Sequences
  import opened Strings

  // ---- the order of strcmp

  // One string ends where the other goes on, or has the lesser character where they first differ
  ghost predicate FirstLess(a: string, b: string, k: nat) {
    k <= |a| && k < |b| && (forall j :: 0 <= j < k ==> a[j] == b[j]) && (k < |a| ==> a[k] < b[k])
  }

  lemma {:induction false} LessExactly(a: string, b: string)
    ensures Less(a, b) <==> exists k: nat :: FirstLess(a, b, k)
    decreases |a|
  {
    if a != "" && b != "" && a[0] == b[0] {
      LessExactly(a[1..], b[1..]);
      if k: nat :| FirstLess(a[1..], b[1..], k) {
        assert FirstLess(a, b, k + 1);
      }
      if k: nat :| FirstLess(a, b, k) {
        assert FirstLess(a[1..], b[1..], k - 1);
      }
    } else if b != "" {
      assert Less(a, b) ==> FirstLess(a, b, 0);
    }
  }

  lemma {:induction false} LessTransitive(a: string, b: string, c: string)
    requires Less(a, b) && Less(b, c)
    ensures Less(a, c)
    decreases |a|
  {
    if a != "" && a[0] == b[0] && b[0] == c[0] {
      LessTransitive(a[1..], b[1..], c[1..]);
    }
  }

  lemma {:induction false} LessIrreflexive(a: string)
    ensures !Less(a, a)
    decreases |a|
  {
    if a != "" {
      LessIrreflexive(a[1..]);
    }
  }

  lemma NotBoth(a: string, b: string)
    requires Less(a, b)
    ensures !Less(b, a)
  {
    if Less(b, a) {
      LessTransitive(a, b, a);
      LessIrreflexive(a);
    }
  }

  lemma {:induction false} LessTotal(a: string, b: string)
    ensures Less(a, b) || a == b || Less(b, a)
    decreases |a|
  {
    if a != "" && b != "" && a[0] == b[0] {
      LessTotal(a[1..], b[1..]);
      assert a == [a[0]] + a[1..] && b == [b[0]] + b[1..];
    }
  }

  lemma Reserved()
    ensures Less(BACKREST, CIPHER) && !Less(CIPHER, BACKREST)
  {
    assert BACKREST[0] == 'b' && CIPHER[0] == 'c';
  }

  // Over the calls of one save a section is due exactly once, unless it bears the name of a section infoSave writes
  // itself
  lemma DueOnce(section: string)
    ensures
      var calls := multiset{
        SaveSection(None, section, Some(BACKREST)), SaveSection(Some(BACKREST), section, Some(CIPHER)),
        SaveSection(Some(CIPHER), section, None)};
      calls[true] == if section in {BACKREST, CIPHER} then 0 else 1
    ensures
      var calls := multiset{SaveSection(None, section, Some(BACKREST)), SaveSection(Some(BACKREST), section, None)};
      calls[true] == if section == BACKREST then 0 else 1
  {
    Reserved();
    LessIrreflexive(BACKREST);
    LessIrreflexive(CIPHER);
    LessTotal(section, BACKREST);
    LessTotal(section, CIPHER);
    if Less(section, BACKREST) {
      LessTransitive(section, BACKREST, CIPHER);
      NotBoth(section, BACKREST);
    }
    if Less(section, CIPHER) {
      NotBoth(section, CIPHER);
    }
    if Less(CIPHER, section) {
      LessTransitive(BACKREST, CIPHER, section);
    }
  }

  // ---- one call of the callback

  ghost predicate Ascending(groups: seq<Group>) {
    forall i, j :: 0 <= i < j < |groups| ==> Less(groups[i].section, groups[j].section)
  }

  // The entries of the groups that are due between two sections
  function Due(last: Option<string>, groups: seq<Group>, next: Option<string>): seq<Entry>
    decreases |groups|
  {
    if groups == [] then []
    else
      (if SaveSection(last, groups[0].section, next) then EntriesOf(groups[0]) else [])
      + Due(last, groups[1..], next)
  }

  function All(groups: seq<Group>): seq<Entry>
    decreases |groups|
  {
    if groups == [] then [] else EntriesOf(groups[0]) + All(groups[1..])
  }

  // The answer for later groups does not change while earlier ones are saved
  lemma {:induction false} DueLater(last: Option<string>, later: string, groups: seq<Group>, next: Option<string>)
    requires forall g :: g in groups ==> Less(later, g.section)
    requires last.None? || Less(last.value, later)
    ensures Due(Some(later), groups, next) == Due(last, groups, next)
    decreases |groups|
  {
    if groups != [] {
      assert groups[0] in groups;
      if last.Some? {
        LessTransitive(last.value, later, groups[0].section);
      }
      DueLater(last, later, groups[1..], next);
    }
  }

  lemma {:induction false} OfferIsDue(last: Option<string>, groups: seq<Group>, next: Option<string>)
    requires Ascending(groups)
    ensures Offer(last, groups, next) == Due(last, groups, next)
    decreases |groups|
  {
    if groups != [] {
      var g := groups[0];
      OfferIsDue(last, groups[1..], next);
      if SaveSection(last, g.section, next) && g.items != [] {
        OfferIsDue(Some(g.section), groups[1..], next);
        forall h | h in groups[1..]
          ensures Less(g.section, h.section)
        {
          var j :| 1 <= j < |groups| && groups[j] == h;
        }
        DueLater(last, g.section, groups[1..], next);
      }
    }
  }

  lemma {:induction false} DueNothing(last: Option<string>, groups: seq<Group>, next: Option<string>)
    requires forall g :: g in groups ==> !SaveSection(last, g.section, next)
    ensures Due(last, groups, next) == []
    decreases |groups|
  {
    if groups != [] {
      assert groups[0] in groups;
      DueNothing(last, groups[1..], next);
    }
  }

  // Two neighbouring calls together save what one would, but for a group that bears the name between them
  lemma {:induction false} DueSplit(last: Option<string>, groups: seq<Group>, mid: string, next: Option<string>)
    requires Ascending(groups)
    requires forall g :: g in groups ==> g.section != mid
    requires last.None? || Less(last.value, mid)
    requires next.None? || Less(mid, next.value)
    ensures Due(last, groups, Some(mid)) + Due(Some(mid), groups, next) == Due(last, groups, next)
    decreases |groups|
  {
    if groups != [] {
      hide Less, EntriesOf, Due;
      var g := groups[0];
      assert g in groups;
      LessTotal(g.section, mid);
      if Less(g.section, mid) {
        DueSplit(last, groups[1..], mid, next);
        DueSplitBelow(last, groups, mid, next);
      } else {
        DueSplitAbove(last, groups, mid, next);
      }
    }
  }

  lemma DueSplitBelow(last: Option<string>, groups: seq<Group>, mid: string, next: Option<string>)
    requires groups != [] && Less(groups[0].section, mid)
    requires next.None? || Less(mid, next.value)
    requires Due(last, groups[1..], Some(mid)) + Due(Some(mid), groups[1..], next) == Due(last, groups[1..], next)
    ensures Due(last, groups, Some(mid)) + Due(Some(mid), groups, next) == Due(last, groups, next)
  {
    hide Less, EntriesOf, Due;
    DueFirst(last, groups, Some(mid));
    DueFirst(Some(mid), groups, next);
    DueFirst(last, groups, next);
    NotBoth(groups[0].section, mid);
    if next.Some? {
      LessTransitive(groups[0].section, mid, next.value);
    }
    var low, high := Due(last, groups[1..], Some(mid)), Due(Some(mid), groups[1..], next);
    assert EntriesOf(groups[0]) + low + high == EntriesOf(groups[0]) + (low + high);
  }

  lemma DueSplitAbove(last: Option<string>, groups: seq<Group>, mid: string, next: Option<string>)
    requires Ascending(groups) && groups != [] && Less(mid, groups[0].section)
    requires last.None? || Less(last.value, mid)
    ensures Due(last, groups, Some(mid)) == [] && Due(Some(mid), groups, next) == Due(last, groups, next)
  {
    hide Less, Due;
    forall h | h in groups
      ensures Less(mid, h.section) && !Less(h.section, mid)
    {
      Above(groups, mid, h);
    }
    DueNothing(last, groups, Some(mid));
    DueLater(last, mid, groups, next);
  }

  lemma DueFirst(last: Option<string>, groups: seq<Group>, next: Option<string>)
    requires groups != []
    ensures var rest := Due(last, groups[1..], next);
            Due(last, groups, next) ==
            if SaveSection(last, groups[0].section, next) then EntriesOf(groups[0]) + rest else rest
  {
  }

  lemma Above(groups: seq<Group>, mid: string, h: Group)
    requires Ascending(groups) && h in groups && Less(mid, groups[0].section)
    ensures Less(mid, h.section) && !Less(h.section, mid)
  {
    var j :| 0 <= j < |groups| && groups[j] == h;
    if j > 0 {
      LessTransitive(mid, groups[0].section, h.section);
    }
    NotBoth(mid, h.section);
  }

  lemma {:induction false} DueAll(groups: seq<Group>)
    ensures Due(None, groups, None) == All(groups)
    decreases |groups|
  {
    if groups != [] {
      DueAll(groups[1..]);
    }
  }

  // ---- the sections of the whole file

  ghost predicate Sorted(entries: seq<Entry>) {
    forall i, j :: 0 <= i < j < |entries| ==>
        entries[i].section == entries[j].section || Less(entries[i].section, entries[j].section)
  }

  ghost predicate Between(last: Option<string>, entries: seq<Entry>, next: Option<string>) {
    forall e :: e in entries ==> SaveSection(last, e.section, next)
  }

  lemma {:induction false} DueSorted(last: Option<string>, groups: seq<Group>, next: Option<string>)
    requires Ascending(groups)
    ensures Sorted(Due(last, groups, next)) && Between(last, Due(last, groups, next), next)
    ensures forall e :: e in Due(last, groups, next) ==> exists g :: g in groups && g.section == e.section
    decreases |groups|
  {
    if groups != [] {
      DueSorted(last, groups[1..], next);
      var rest := Due(last, groups[1..], next);
      forall e | e in rest
        ensures Less(groups[0].section, e.section) && exists g :: g in groups && g.section == e.section
      {
        var g :| g in groups[1..] && g.section == e.section;
        assert g in groups;
        var j :| 1 <= j < |groups| && groups[j] == g;
      }
      assert groups[0] in groups;
    }
  }

  lemma SortedJoin(a: seq<Entry>, b: seq<Entry>)
    requires Sorted(a) && Sorted(b)
    requires forall e, f :: e in a && f in b ==> e.section == f.section || Less(e.section, f.section)
    ensures Sorted(a + b)
  {
    forall i, j | 0 <= i < j < |a + b|
      ensures (a + b)[i].section == (a + b)[j].section || Less((a + b)[i].section, (a + b)[j].section)
    {
      if i < |a| <= j {
        assert (a + b)[i] in a && (a + b)[j] in b;
      }
    }
  }

  // A part of the file from after one name up to the section of that name, which infoSave writes itself
  lemma SortedPart(before: seq<Entry>, last: string, groups: seq<Group>, next: Option<string>)
    requires Sorted(before) && Ascending(groups)
    requires forall e :: e in before ==> e.section == last || Less(e.section, last)
    ensures Sorted(before + Due(Some(last), groups, next))
    ensures next.Some? ==> forall e :: e in Due(Some(last), groups, next) ==> Less(e.section, next.value)
  {
    var part := Due(Some(last), groups, next);
    DueSorted(Some(last), groups, next);
    forall e, f | e in before && f in part
      ensures e.section == f.section || Less(e.section, f.section)
    {
      if e.section != last {
        LessTransitive(e.section, last, f.section);
      }
    }
    SortedJoin(before, part);
  }

  lemma SortedOwn(before: seq<Entry>, own: seq<Entry>, section: string)
    requires Sorted(before)
    requires forall e :: e in before ==> Less(e.section, section)
    requires forall e :: e in own ==> e.section == section
    ensures Sorted(before + own)
    ensures forall e :: e in before + own ==> e.section == section || Less(e.section, section)
  {
    SortedJoin(before, own);
  }

  // Before the checksum the sections of the file are in ascending order, so each of them is one block of lines
  lemma SavedSorted(version: string, cipherPass: Option<string>, groups: seq<Group>)
    requires Ascending(groups)
    ensures Sorted(Saved(version, cipherPass, groups))
  {
    hide Less;
    var first := Due(None, groups, Some(BACKREST));
    OfferIsDue(None, groups, Some(BACKREST));
    DueSorted(None, groups, Some(BACKREST));
    SortedOwn(first, BackrestEntries(version), BACKREST);
    var before := first + BackrestEntries(version);
    if cipherPass.None? {
      OfferIsDue(Some(BACKREST), groups, None);
      SortedPart(before, BACKREST, groups, None);
    } else {
      Reserved();
      OfferIsDue(Some(BACKREST), groups, Some(CIPHER));
      SortedPart(before, BACKREST, groups, Some(CIPHER));
      var upto := before + Due(Some(BACKREST), groups, Some(CIPHER));
      forall e | e in upto
        ensures Less(e.section, CIPHER)
      {
        if e in before && e.section != BACKREST {
          LessTransitive(e.section, BACKREST, CIPHER);
        }
      }
      SortedOwn(upto, CipherEntries(cipherPass.value), CIPHER);
      OfferIsDue(Some(CIPHER), groups, None);
      SortedPart(upto + CipherEntries(cipherPass.value), CIPHER, groups, None);
    }
  }

  // ---- reading back

  // What a save must be given so that the lines can be told apart: no linefeeds, names, and values as JSON is written,
  // which are never arrays
  ghost predicate Storable(e: Entry) {
    && e.section != "" && '\n' !in e.section
    && e.key != "" && '\n' !in e.key && CString(e.key)
    && e.value != "" && '\n' !in e.value && CString(e.value)
    && Accepted(true, e.value) && e.value[0] != '[' && e.value[0] != ',' && !IsSpace(e.value[0])
  }

  // The line of the entry is split where it was joined (see SplitExact)
  ghost predicate Splits(asserts: bool, e: Entry) {
    Passes(asserts, e.key, e.value, 0)
  }

  // Whatever the JSON writer writes for a value that is no array is such a value
  lemma WrittenStorable(e: Entry, v: JsonWrites.Value)
    requires e.section != "" && '\n' !in e.section && e.key != "" && '\n' !in e.key && CString(e.key)
    requires JsonWrites.Writable(v) && !v.ArrayValue? && e.value == JsonWrites.Written(v)
    ensures Storable(e)
  {
    JsonWrites.WrittenAccepted(true, v);
    JsonWrites.WrittenClean(v);
    JsonWrites.FirstChar(v);
    hide Accepted, JsonWrites.Written;
  }

  function SectionOf(last: Option<string>): string {
    if last.Some? then last.value else ""
  }

  // A key and value line is never taken for a section line. It is read as what was written if and only if it splits
  // there; else it is an error, or read as another key of the same section.
  lemma KeyValueRead(asserts: bool, e: Entry, rest: string)
    requires Storable(e)
    ensures NextValue(asserts, e.key + "=" + e.value + "\n" + rest, e.section) == (Found(e), rest, e.section) <==>
            Splits(asserts, e)
    ensures
      var r := NextValue(asserts, e.key + "=" + e.value + "\n" + rest, e.section);
      r.0.Failed? || (r.0.Found? && r.0.entry.section == e.section && (r.0.entry == e ==> Splits(asserts, e)))
  {
    hide SplitOf, FirstLine, Validate, Passes, FirstTaken;
    var line := e.key + "=" + e.value;
    LineRead(line, rest);
    AssertsAgree(e.value);
    NoArrayEnd(true, e.value);
    assert line[|line| - 1] == e.value[|e.value| - 1];
    SplitExact(asserts, e.key, e.value);
  }

  // The section line before it only changes the section
  lemma EntryRead(asserts: bool, last: Option<string>, e: Entry, rest: string)
    requires Storable(e)
    ensures NextValue(asserts, LineText(last, e) + rest, SectionOf(last))
         == NextValue(asserts, e.key + "=" + e.value + "\n" + rest, e.section)
  {
    hide NextValue, Storable, HeaderText;
    var line := e.key + "=" + e.value + "\n" + rest;
    LineTextIs(last, e, rest);
    if last == Some(e.section) {
      NoHeader(last, e.section, line);
    } else {
      NamesStored(e);
      HeaderTextRead(asserts, last, e.section, line);
    }
  }

  // A line with what follows it, as the header and the rest
  lemma LineTextIs(last: Option<string>, e: Entry, rest: string)
    ensures LineText(last, e) + rest == HeaderText(last, e.section) + (e.key + "=" + e.value + "\n" + rest)
  {
    hide HeaderText;
    var header := HeaderText(last, e.section);
    Append(header, e.key, "=", e.value, "\n", rest);
  }

  lemma NoHeader(last: Option<string>, section: string, line: string)
    requires last == Some(section)
    ensures HeaderText(last, section) + line == line
  {
  }

  // A section line, after a blank one when it is not the first
  lemma HeaderTextRead(asserts: bool, last: Option<string>, section: string, line: string)
    requires last != Some(section) && section != "" && '\n' !in section
    ensures NextValue(asserts, HeaderText(last, section) + line, SectionOf(last)) == NextValue(asserts, line, section)
  {
    hide NextValue;
    var header := "[" + section + "]\n";
    HeaderRead(asserts, section, line, SectionOf(last));
    if last.Some? {
      assert HeaderText(last, section) == "\n" + header;
      Regroup("\n", header, line);
      BlankRead(asserts, header + line, SectionOf(last));
    } else {
      assert HeaderText(last, section) == header;
    }
  }

  lemma NamesStored(e: Entry)
    requires Storable(e)
    ensures e.section != "" && '\n' !in e.section
  {
  }

  // The loop over entries alone
  function Steps(st: State, entries: seq<Entry>): Step
    decreases |entries|
  {
    if entries == [] then Next(st)
    else
      var step := Handle(st, entries[0]);
      if step.Next? then Steps(step.state, entries[1..]) else step
  }

  lemma RenderNext(last: Option<string>, entries: seq<Entry>, tail: string)
    requires entries != []
    ensures Render(last, entries) + tail
         == LineText(last, entries[0]) + (Render(Some(entries[0].section), entries[1..]) + tail)
  {
    hide LineText;
  }

  // Loading the saved lines runs the loop over exactly the saved entries
  lemma {:induction false} LoadRendered(
    asserts: bool, hash: string -> string, st: State, last: Option<string>, entries: seq<Entry>, tail: string)
    requires forall e :: e in entries ==> Storable(e) && Splits(asserts, e)
    ensures LoadFrom(asserts, hash, st, Render(last, entries) + tail, SectionOf(last)) ==
            match Steps(st, entries)
            case Next(st') => LoadFrom(asserts, hash, st', tail, SectionOf(LastSection(last, entries)))
            case Wrong(error) => LoadFailed(error)
    decreases |entries|
  {
    hide NextValue, Storable, Splits, Handle, LineText;
    if entries == [] {
      assert Render(last, entries) + tail == tail;
    } else {
      var e := entries[0];
      assert e in entries;
      var rest := Render(Some(e.section), entries[1..]) + tail;
      RenderNext(last, entries, tail);
      EntryRead(asserts, last, e, rest);
      KeyValueRead(asserts, e, rest);
      if Handle(st, e).Next? {
        LoadRendered(asserts, hash, Handle(st, e).state, Some(e.section), entries[1..], tail);
      }
    }
  }

  // ---- lines that are split elsewhere

  // What a callback was given is never taken back
  lemma {:induction false} LoadGrows(asserts: bool, hash: string -> string, st: State, text: string, section: string)
    ensures LoadFrom(asserts, hash, st, text, section).Loaded? ==>
              st.given <= LoadFrom(asserts, hash, st, text, section).given
    decreases |text|
  {
    hide NextValue, Handle;
    var (outcome, rest, section') := NextValue(asserts, text, section);
    if outcome.Found? && Handle(st, outcome.entry).Next? {
      HandleGrows(st, outcome.entry);
      LoadGrows(asserts, hash, Handle(st, outcome.entry).state, rest, section');
    }
  }

  lemma HandleGrows(st: State, e: Entry)
    requires Handle(st, e).Next?
    ensures st.given <= Handle(st, e).state.given
    ensures e.section !in {BACKREST, CIPHER} ==> Handle(st, e).state.given == st.given + [e]
    ensures forall x :: x in Handle(st, e).state.given ==> x in st.given || x == e
  {
    hide Unquote, Unsigned, Quote;
  }

  lemma {:induction false} StepsGrow(st: State, entries: seq<Entry>)
    requires Steps(st, entries).Next?
    ensures st.given <= Steps(st, entries).state.given
    ensures forall x :: x in Steps(st, entries).state.given ==> x in st.given || x in entries
    decreases |entries|
  {
    hide Handle;
    if entries != [] {
      HandleGrows(st, entries[0]);
      StepsGrow(Handle(st, entries[0]).state, entries[1..]);
    }
  }

  // When some line does not split where it was joined, the callback is not given what was saved
  lemma {:induction false} LoadMisread(
    asserts: bool, hash: string -> string, st: State, last: Option<string>, entries: seq<Entry>, tail: string)
    requires forall e :: e in entries ==> Storable(e) && (Splits(asserts, e) || e.section !in {BACKREST, CIPHER})
    requires exists e :: e in entries && !Splits(asserts, e)
    requires Steps(st, entries).Next?
    ensures var r := LoadFrom(asserts, hash, st, Render(last, entries) + tail, SectionOf(last));
            r.Loaded? ==> r.given != Steps(st, entries).state.given
    decreases |entries|
  {
    hide NextValue, Storable, Splits, Handle, LineText, Render;
    var e := entries[0];
    assert e in entries;
    var rest := Render(Some(e.section), entries[1..]) + tail;
    RenderNext(last, entries, tail);
    EntryRead(asserts, last, e, rest);
    KeyValueRead(asserts, e, rest);
    if Splits(asserts, e) {
      assert forall x :: x in entries ==> x == e || x in entries[1..];
      LoadMisread(asserts, hash, Handle(st, e).state, Some(e.section), entries[1..], tail);
    } else {
      OtherGiven(asserts, hash, st, e, entries[1..], rest);
    }
  }

  lemma OtherGiven(asserts: bool, hash: string -> string, st: State, e: Entry, entries: seq<Entry>, rest: string)
    requires Storable(e) && !Splits(asserts, e) && e.section !in {BACKREST, CIPHER}
    requires Handle(st, e).Next? && Steps(Handle(st, e).state, entries).Next?
    ensures var r := LoadFrom(asserts, hash, st, e.key + "=" + e.value + "\n" + rest, e.section);
            r.Loaded? ==> r.given != Steps(Handle(st, e).state, entries).state.given
  {
    hide NextValue, Storable, Splits, Handle, Steps;
    KeyValueRead(asserts, e, rest);
    HandleGrows(st, e);
    StepsGrow(Handle(st, e).state, entries);
    var (outcome, unread, section) := NextValue(asserts, e.key + "=" + e.value + "\n" + rest, e.section);
    if outcome.Found? && Handle(st, outcome.entry).Next? {
      HandleGrows(st, outcome.entry);
      LoadGrows(asserts, hash, Handle(st, outcome.entry).state, unread, section);
      assert (st.given + [outcome.entry])[|st.given|] != (st.given + [e])[|st.given|];
    }
  }

  // ---- the two hashes

  // While loading, the hashed text grows as it did while saving
  lemma {:induction false} SameHash(st: State, last: Option<string>, entries: seq<Entry>)
    requires st.sectionLast == SectionOf(last) && last != Some("")
    requires forall e :: e in entries ==> e.section != "" && !(e.section == BACKREST && e.key == KEY_CHECKSUM)
    ensures Steps(st, entries).Next? ==>
              && Steps(st, entries).state.hashed == st.hashed + Hashed(last, entries)
              && Steps(st, entries).state.sectionLast == SectionOf(LastSection(last, entries))
    decreases |entries|
  {
    hide Handle, HashText;
    if entries != [] {
      var e := entries[0];
      assert e in entries;
      SameHashOne(st, last, e);
      var step := Handle(st, e);
      if step.Next? {
        SameHash(step.state, Some(e.section), entries[1..]);
        Regroup(st.hashed, HashText(last, e), Hashed(Some(e.section), entries[1..]));
      }
    }
  }

  lemma SameHashOne(st: State, last: Option<string>, e: Entry)
    requires st.sectionLast == SectionOf(last) && last != Some("")
    requires e.section != "" && !(e.section == BACKREST && e.key == KEY_CHECKSUM)
    ensures Handle(st, e).Next? ==>
              Handle(st, e).state.hashed == st.hashed + HashText(last, e)
                  && Handle(st, e).state.sectionLast == e.section
  {
    hide Quote, Unquote, Unsigned;
    assert HashPrefix(st.sectionLast, e.section) == HashHeader(last, e.section);
    Append(st.hashed, HashHeader(last, e.section), Quote(e.key), ":", e.value, "");
  }

  // ---- the round trip

  // What was found and given so far, apart from the hash
  function Content(st: State): (Option<string>, Option<string>, Option<string>, seq<Entry>) {
    (st.version, st.cipherPass, st.expected, st.given)
  }

  lemma {:induction false} StepsJoin(st: State, a: seq<Entry>, b: seq<Entry>)
    ensures Steps(st, a + b) == if Steps(st, a).Next? then Steps(Steps(st, a).state, b) else Steps(st, a)
    decreases |a|
  {
    hide Handle;
    if a == [] {
      assert a + b == b;
    } else {
      assert (a + b)[1..] == a[1..] + b;
      if Handle(st, a[0]).Next? {
        StepsJoin(Handle(st, a[0]).state, a[1..], b);
      }
    }
  }

  lemma {:induction false} StepsGiven(st: State, entries: seq<Entry>)
    requires forall e :: e in entries ==> e.section !in {BACKREST, CIPHER}
    ensures Steps(st, entries).Next?
    ensures Content(Steps(st, entries).state) == (st.version, st.cipherPass, st.expected, st.given + entries)
    decreases |entries|
  {
    hide HashStep;
    if entries == [] {
      assert st.given + entries == st.given;
    } else {
      var e := entries[0];
      assert e in entries;
      HashKeeps(st, e);
      StepsGiven(Handle(st, e).state, entries[1..]);
      assert st.given + [e] + entries[1..] == st.given + entries;
    }
  }

  lemma HashKeeps(st: State, e: Entry)
    ensures Content(HashStep(st, e)) == Content(st)
  {
  }

  lemma StepsBackrest(st: State, version: string)
    requires CString(version)
    ensures Steps(st, BackrestEntries(version)).Next?
    ensures Content(Steps(st, BackrestEntries(version)).state) == (Some(version), st.cipherPass, st.expected, st.given)
  {
    hide HashStep, Unquote, Quote;
    var es := BackrestEntries(version);
    HashKeeps(st, es[0]);
    assert Unsigned("5") == Some(5) by {
      assert "5"[0..1] == "5" && Decimal("5") == 5;
    }
    assert Handle(st, es[0]) == Next(HashStep(st, es[0]));
    var st' := HashStep(st, es[0]);
    QuoteRoundTrip(version);
    HashKeeps(st', es[1]);
    assert Handle(st', es[1]) == Next(HashStep(st', es[1]).(version := Some(version)));
    StepsTwo(st, es);
  }

  lemma StepsTwo(st: State, entries: seq<Entry>)
    requires 0 < |entries| <= 2 && Handle(st, entries[0]).Next?
    ensures |entries| == 1 ==> Steps(st, entries) == Handle(st, entries[0])
    ensures |entries| == 2 && Handle(Handle(st, entries[0]).state, entries[1]).Next? ==>
              Steps(st, entries) == Handle(Handle(st, entries[0]).state, entries[1])
  {
    hide Handle;
    if |entries| == 2 {
      var next := Handle(st, entries[0]).state;
      assert entries[1..] == [entries[1]];
      if Handle(next, entries[1]).Next? {
        assert Steps(next, [entries[1]]) == Handle(next, entries[1]);
      }
    }
  }

  lemma StepsCipher(st: State, cipherPass: string)
    requires CString(cipherPass)
    ensures Steps(st, CipherEntries(cipherPass)).Next?
    ensures Content(Steps(st, CipherEntries(cipherPass)).state) == (st.version, Some(cipherPass), st.expected, st.given)
  {
    hide HashStep, Unquote, Quote;
    var e := CipherEntries(cipherPass)[0];
    HashKeeps(st, e);
    QuoteRoundTrip(cipherPass);
    assert Handle(st, e) == Next(HashStep(st, e).(cipherPass := Some(cipherPass)));
    StepsTwo(st, CipherEntries(cipherPass));
  }

  lemma OwnNames(name: string)
    requires name in {BACKREST, CIPHER, KEY_FORMAT, KEY_VERSION, KEY_CIPHER_PASS, KEY_CHECKSUM}
    ensures name != "" && '\n' !in name && '=' !in name && '\0' !in name
  {
  }

  lemma QuotedStorable(section: string, key: string, value: string)
    requires section in {BACKREST, CIPHER} && key in {KEY_VERSION, KEY_CIPHER_PASS, KEY_CHECKSUM} && CString(value)
    ensures Storable(Entry(section, key, Quote(value)))
    ensures forall asserts :: Splits(asserts, Entry(section, key, Quote(value)))
  {
    OwnNames(section);
    OwnNames(key);
    QuoteAccepted(true, value);
    PlainStorable(section, key, Quote(value));
  }

  lemma PlainStorable(section: string, key: string, value: string)
    requires section != "" && '\n' !in section
    requires key != "" && '\n' !in key && '=' !in key && CString(key)
    requires value != "" && '\n' !in value && CString(value) && Accepted(true, value)
    requires value[0] != '[' && value[0] != ',' && !IsSpace(value[0])
    ensures Storable(Entry(section, key, value))
    ensures forall asserts :: Splits(asserts, Entry(section, key, value))
  {
    hide Accepted;
  }

  lemma FormatStorable()
    ensures Storable(Entry(BACKREST, KEY_FORMAT, "5"))
    ensures forall asserts :: Splits(asserts, Entry(BACKREST, KEY_FORMAT, "5"))
  {
    OwnNames(BACKREST);
    OwnNames(KEY_FORMAT);
    assert Accepted(true, "5") by {
      assert "5"[0..1] == "5" && Decimal("5") == 5;
      assert SkipValue(true, "5", 0, false) == At(1) by {
        hide SkipElements, SkipMembers, StringBody;
      }
    }
    PlainStorable(BACKREST, KEY_FORMAT, "5");
  }

  lemma AllStorable(asserts: bool, version: string, cipherPass: Option<string>, groups: seq<Group>)
    requires Ascending(groups)
    requires forall e :: e in All(groups) ==> Storable(e)
    requires CString(version) && (cipherPass.Some? ==> CString(cipherPass.value))
    ensures forall e :: e in Saved(version, cipherPass, groups) ==>
                          Storable(e) && (Splits(asserts, e) || e in All(groups))
  {
    hide Storable, Splits, Less, Quote;
    OfferIsDue(None, groups, Some(BACKREST));
    DueInAll(None, groups, Some(BACKREST));
    FormatStorable();
    QuotedStorable(BACKREST, KEY_VERSION, version);
    if cipherPass.None? {
      OfferIsDue(Some(BACKREST), groups, None);
      DueInAll(Some(BACKREST), groups, None);
    } else {
      OfferIsDue(Some(BACKREST), groups, Some(CIPHER));
      DueInAll(Some(BACKREST), groups, Some(CIPHER));
      QuotedStorable(CIPHER, KEY_CIPHER_PASS, cipherPass.value);
      OfferIsDue(Some(CIPHER), groups, None);
      DueInAll(Some(CIPHER), groups, None);
    }
  }

  lemma {:induction false} DueInAll(last: Option<string>, groups: seq<Group>, next: Option<string>)
    ensures forall e :: e in Due(last, groups, next) ==> e in All(groups)
    decreases |groups|
  {
    if groups != [] {
      DueInAll(last, groups[1..], next);
    }
  }

  lemma {:induction false} AllSections(groups: seq<Group>, e: Entry)
    requires e in All(groups)
    ensures exists g :: g in groups && g.section == e.section
    decreases |groups|
  {
    if e in EntriesOf(groups[0]) {
      assert groups[0] in groups;
    } else {
      AllSections(groups[1..], e);
      var g :| g in groups[1..] && g.section == e.section;
      assert g in groups;
    }
  }

  // A callback that uses no name of infoSave's own gets back everything it offered, in the order it offered it
  lemma SavedSteps(version: string, cipherPass: Option<string>, groups: seq<Group>)
    requires Ascending(groups)
    requires forall g :: g in groups ==> g.section !in {BACKREST, CIPHER}
    requires CString(version) && (cipherPass.Some? ==> CString(cipherPass.value))
    ensures Steps(START, Saved(version, cipherPass, groups)).Next?
    ensures Content(Steps(START, Saved(version, cipherPass, groups)).state)
              == (Some(version), cipherPass, None, All(groups))
  {
    hide Less, Handle, BackrestEntries, CipherEntries, EntriesOf, Due, Offer, Steps, Content;
    Reserved();
    var a := Due(None, groups, Some(BACKREST));
    OfferIsDue(None, groups, Some(BACKREST));
    GivenPart(START, None, groups, Some(BACKREST));
    var s1 := Steps(START, a).state;
    StepsBackrest(s1, version);
    StepsJoin(START, a, BackrestEntries(version));
    var before := a + BackrestEntries(version);
    var s2 := Steps(START, before).state;
    DueAll(groups);
    DueSplit(None, groups, BACKREST, None);
    ContentParts(s1);
    ContentParts(s2);
    assert [] + a == a;
    if cipherPass.None? {
      OfferIsDue(Some(BACKREST), groups, None);
      GivenPart(s2, Some(BACKREST), groups, None);
      StepsJoin(START, before, Due(Some(BACKREST), groups, None));
    } else {
      OfferIsDue(Some(BACKREST), groups, Some(CIPHER));
      OfferIsDue(Some(CIPHER), groups, None);
      CipherSteps(before, cipherPass.value, groups);
      DueSplit(Some(BACKREST), groups, CIPHER, None);
      Regroup(a, Due(Some(BACKREST), groups, Some(CIPHER)), Due(Some(CIPHER), groups, None));
    }
  }

  lemma ContentParts(st: State)
    ensures Content(st) == (st.version, st.cipherPass, st.expected, st.given)
  {
  }

  // The part from the passphrase on
  lemma CipherSteps(before: seq<Entry>, cipherPass: string, groups: seq<Group>)
    requires Steps(START, before).Next? && CString(cipherPass)
    requires forall g :: g in groups ==> g.section !in {BACKREST, CIPHER}
    ensures
      var b, c := Due(Some(BACKREST), groups, Some(CIPHER)), Due(Some(CIPHER), groups, None);
      var st, r := Steps(START, before).state, Steps(START, before + b + CipherEntries(cipherPass) + c);
      r.Next? && Content(r.state) == (st.version, Some(cipherPass), st.expected, st.given + b + c)
  {
    hide Due, Steps, CipherEntries, Handle;
    var b, c := Due(Some(BACKREST), groups, Some(CIPHER)), Due(Some(CIPHER), groups, None);
    GivenPart(Steps(START, before).state, Some(BACKREST), groups, Some(CIPHER));
    StepsJoin(START, before, b);
    StepsCipher(Steps(START, before + b).state, cipherPass);
    StepsJoin(START, before + b, CipherEntries(cipherPass));
    var s4 := Steps(START, before + b + CipherEntries(cipherPass)).state;
    GivenPart(s4, Some(CIPHER), groups, None);
    StepsJoin(START, before + b + CipherEntries(cipherPass), c);
  }

  lemma GivenPart(st: State, last: Option<string>, groups: seq<Group>, next: Option<string>)
    requires forall g :: g in groups ==> g.section !in {BACKREST, CIPHER}
    ensures Steps(st, Due(last, groups, next)).Next?
    ensures Content(Steps(st, Due(last, groups, next)).state)
         == (st.version, st.cipherPass, st.expected, st.given + Due(last, groups, next))
  {
    hide Handle, Due;
    DueInAll(last, groups, next);
    forall e | e in Due(last, groups, next)
      ensures e.section !in {BACKREST, CIPHER}
    {
      AllSections(groups, e);
    }
    StepsGiven(st, Due(last, groups, next));
  }

  // The checksum lines are read after everything else, and are not part of what they are the checksum of
  lemma ChecksumRead(asserts: bool, hash: string -> string, st: State, section: string, checksum: string)
    requires CString(checksum)
    ensures LoadFrom(asserts, hash, st, ChecksumLines(checksum), section)
              == Verified(hash, st.(expected := Some(checksum)))
  {
    hide NextValue, Storable, Unquote, Quote, Handle, ChecksumLines;
    var e := Entry(BACKREST, KEY_CHECKSUM, Quote(checksum));
    ChecksumNext(asserts, checksum, section);
    ChecksumHandled(st, checksum);
    LoadEnd(asserts, hash, st.(expected := Some(checksum)), BACKREST);
  }

  lemma ChecksumNext(asserts: bool, checksum: string, section: string)
    requires CString(checksum)
    ensures NextValue(asserts, ChecksumLines(checksum), section)
         == (Found(Entry(BACKREST, KEY_CHECKSUM, Quote(checksum))), "", BACKREST)
    ensures ChecksumLines(checksum) != ""
  {
    hide NextValue, Storable, Splits, Quote;
    var e := Entry(BACKREST, KEY_CHECKSUM, Quote(checksum));
    var line := e.key + "=" + e.value + "\n" + "";
    ChecksumLinesAre(checksum);
    BlankRead(asserts, "[" + BACKREST + "]\n" + line, section);
    OwnNames(BACKREST);
    HeaderRead(asserts, BACKREST, line, section);
    QuotedStorable(BACKREST, KEY_CHECKSUM, checksum);
    assert Splits(asserts, e);
    KeyValueRead(asserts, e, "");
  }

  lemma ChecksumLinesAre(checksum: string)
    ensures ChecksumLines(checksum)
         == "\n" + ("[" + BACKREST + "]\n" + (KEY_CHECKSUM + "=" + Quote(checksum) + "\n" + ""))
  {
    hide Quote;
    assert "\n[backrest]\nbackrest-checksum=" == "\n" + ("[" + BACKREST + "]\n") + (KEY_CHECKSUM + "=");
  }

  lemma ChecksumHandled(st: State, checksum: string)
    requires CString(checksum)
    ensures Handle(st, Entry(BACKREST, KEY_CHECKSUM, Quote(checksum))) == Next(st.(expected := Some(checksum)))
  {
    QuoteRoundTrip(checksum);
    hide Unquote, Quote;
  }

  lemma LoadEnd(asserts: bool, hash: string -> string, st: State, section: string)
    ensures LoadFrom(asserts, hash, st, "", section) == Verified(hash, st)
  {
  }

  // Loading what was saved gives back the version, the passphrase and every entry of the callback in order if and only
  // if the line of every entry splits where it was joined. Then no line is taken for another, and the text hashed while
  // loading is the text hashed while saving, so the checksum is found right.
  lemma RoundTrip(asserts: bool, hash: string -> string, version: string, cipherPass: Option<string>,
                  groups: seq<Group>)
    requires Ascending(groups)
    requires forall g :: g in groups ==> g.section !in {BACKREST, CIPHER}
    requires forall e :: e in All(groups) ==> Storable(e)
    requires CString(version) && (cipherPass.Some? ==> CString(cipherPass.value))
    requires CString(hash(ChecksumText(Saved(version, cipherPass, groups))))
    ensures
      LoadFrom(asserts, hash, START, FileText(hash, Saved(version, cipherPass, groups)), "")
      == Loaded(Info(Some(version), cipherPass), All(groups)) <==>
      forall e :: e in All(groups) ==> Splits(asserts, e)
  {
    hide Storable, Splits, Less, Offer, Due, Handle, Quote, NextValue, Render, Hashed, LoadFrom, Saved;
    var entries := Saved(version, cipherPass, groups);
    var checksum := hash(ChecksumText(entries));
    AllStorable(asserts, version, cipherPass, groups);
    SavedSteps(version, cipherPass, groups);
    if forall e :: e in All(groups) ==> Splits(asserts, e) {
      SplitRoundTrip(asserts, hash, version, cipherPass, groups);
    } else {
      StepsGrow(START, entries);
      forall e | e in entries && !Splits(asserts, e)
        ensures e.section !in {BACKREST, CIPHER}
      {
        AllSections(groups, e);
      }
      LoadMisread(asserts, hash, START, None, entries, ChecksumLines(checksum));
    }
  }

  lemma SplitRoundTrip(asserts: bool, hash: string -> string, version: string, cipherPass: Option<string>,
                       groups: seq<Group>)
    requires Ascending(groups)
    requires forall g :: g in groups ==> g.section !in {BACKREST, CIPHER}
    requires forall e :: e in All(groups) ==> Storable(e) && Splits(asserts, e)
    requires CString(version) && (cipherPass.Some? ==> CString(cipherPass.value))
    requires CString(hash(ChecksumText(Saved(version, cipherPass, groups))))
    ensures LoadFrom(asserts, hash, START, FileText(hash, Saved(version, cipherPass, groups)), "")
         == Loaded(Info(Some(version), cipherPass), All(groups))
  {
    hide Storable, Splits, Less, Offer, Due, Handle, Quote, NextValue, Render, Hashed, LoadFrom, Saved;
    var entries := Saved(version, cipherPass, groups);
    var checksum := hash(ChecksumText(entries));
    AllStorable(asserts, version, cipherPass, groups);
    LoadRendered(asserts, hash, START, None, entries, ChecksumLines(checksum));
    SavedSteps(version, cipherPass, groups);
    SavedNames(version, cipherPass, groups);
    SameHash(START, None, entries);
    var st := Steps(START, entries).state;
    ChecksumRead(asserts, hash, st, SectionOf(LastSection(None, entries)), checksum);
    assert st.hashed + "}}" == ChecksumText(entries);
  }

  lemma SavedNames(version: string, cipherPass: Option<string>, groups: seq<Group>)
    requires Ascending(groups)
    requires forall g :: g in groups ==> g.section !in {BACKREST, CIPHER}
    requires forall e :: e in Saved(version, cipherPass, groups) ==> Storable(e)
    ensures forall e :: e in Saved(version, cipherPass, groups) ==>
                          e.section != "" && !(e.section == BACKREST && e.key == KEY_CHECKSUM)
  {
    hide Less, Quote, Storable, Due, Offer;
    OfferIsDue(None, groups, Some(BACKREST));
    OfferIsDue(Some(BACKREST), groups, Some(CIPHER));
    OfferIsDue(Some(BACKREST), groups, None);
    OfferIsDue(Some(CIPHER), groups, None);
    DueInAll(None, groups, Some(BACKREST));
    DueInAll(Some(BACKREST), groups, Some(CIPHER));
    DueInAll(Some(BACKREST), groups, None);
    DueInAll(Some(CIPHER), groups, None);
    forall e | e in Saved(version, cipherPass, groups)
      ensures e.section != "" && !(e.section == BACKREST && e.key == KEY_CHECKSUM)
    {
      NamesStored(e);
      if e.section == BACKREST {
        if e in All(groups) {
          AllSections(groups, e);
        }
        assert e in BackrestEntries(version);
      }
    }
  }
}
