// info/info.c: an info file is an ini file whose last section holds a checksum of everything before it. The text that
// is hashed is built once while saving and once while loading, by two different loops.
module Infos {
  import opened JsonStrings
  import opened Options
  import opened Inis
  import opened Sequences

  const BACKREST := "backrest"
  const CIPHER := "cipher"
  const KEY_FORMAT := "backrest-format"
  const KEY_VERSION := "backrest-version"
  const KEY_CHECKSUM := "backrest-checksum"
  const KEY_CIPHER_PASS := "cipher-pass"
  const REPOSITORY_FORMAT := 5

  // What a load finds about the file itself; the version and passphrase may be missing or null
  datatype Info = Info(version: Option<string>, cipherPass: Option<string>)

  // What a save callback has to offer for one section
  datatype Group = Group(section: string, items: seq<(string, string)>)

  // strcmp() < 0
  predicate Less(a: string, b: string) {
    if b == "" then false
    else if a == "" then true
    else a[0] < b[0] || (a[0] == b[0] && Less(a[1..], b[1..]))
  }

  // infoSaveSection
  predicate SaveSection(last: Option<string>, section: string, next: Option<string>) {
    (last.None? || Less(last.value, section)) && (next.None? || Less(section, next.value))
  }

  // ---- what is written for one value, and what is hashed for it

  function HeaderText(last: Option<string>, section: string): string {
    if last == Some(section) then "" else (if last.Some? then "\n" else "") + "[" + section + "]\n"
  }

  function LineText(last: Option<string>, e: Entry): string {
    HeaderText(last, e.section) + e.key + "=" + e.value + "\n"
  }

  function HashHeader(last: Option<string>, section: string): string {
    if last == Some(section) then "," else (if last.Some? then "}," else "") + "\"" + section + "\":{"
  }

  function HashText(last: Option<string>, e: Entry): string {
    HashHeader(last, e.section) + Quote(e.key) + ":" + e.value
  }

  function Render(last: Option<string>, entries: seq<Entry>): string
    decreases |entries|
  {
    if entries == [] then ""
    else LineText(last, entries[0]) + Render(Some(entries[0].section), entries[1..])
  }

  function Hashed(last: Option<string>, entries: seq<Entry>): string
    decreases |entries|
  {
    if entries == [] then ""
    else HashText(last, entries[0]) + Hashed(Some(entries[0].section), entries[1..])
  }

  function LastSection(last: Option<string>, entries: seq<Entry>): Option<string> {
    if entries == [] then last else Some(entries[|entries| - 1].section)
  }

  function EntriesOf(g: Group): (r: seq<Entry>)
    ensures |r| == |g.items|
    ensures forall k :: 0 <= k < |r| ==> r[k] == Entry(g.section, g.items[k].0, g.items[k].1)
  {
    seq(|g.items|, k requires 0 <= k < |g.items| => Entry(g.section, g.items[k].0, g.items[k].1))
  }

  // What one call of the callback saves
  function Offer(last: Option<string>, groups: seq<Group>, next: Option<string>): seq<Entry>
    decreases |groups|
  {
    if groups == [] then []
    else
      var g := groups[0];
      if SaveSection(last, g.section, next) then
        EntriesOf(g) + Offer(LastSection(last, EntriesOf(g)), groups[1..], next)
      else Offer(last, groups[1..], next)
  }

  function BackrestEntries(version: string): seq<Entry> {
    [Entry(BACKREST, KEY_FORMAT, "5"), Entry(BACKREST, KEY_VERSION, Quote(version))]
  }

  function CipherEntries(cipherPass: string): seq<Entry> {
    [Entry(CIPHER, KEY_CIPHER_PASS, Quote(cipherPass))]
  }

  // Everything infoSave saves before the checksum
  function Saved(version: string, cipherPass: Option<string>, groups: seq<Group>): seq<Entry> {
    var before := Offer(None, groups, Some(BACKREST)) + BackrestEntries(version);
    if cipherPass.None? then before + Offer(Some(BACKREST), groups, None)
    else
      before + Offer(Some(BACKREST), groups, Some(CIPHER)) + CipherEntries(cipherPass.value)
      + Offer(Some(CIPHER), groups, None)
  }

  function ChecksumText(entries: seq<Entry>): string {
    "{" + Hashed(None, entries) + "}}"
  }

  function ChecksumLines(checksum: string): string {
    "\n[backrest]\nbackrest-checksum=" + Quote(checksum) + "\n"
  }

  function FileText(hash: string -> string, entries: seq<Entry>): string {
    Render(None, entries) + ChecksumLines(hash(ChecksumText(entries)))
  }

  // ---- saving

  class InfoSave {
    var write: string
    var checksum: string
    var sectionLast: Option<string>
    ghost var saved: seq<Entry>

    // The file, the hashed text and the last section are those of the entries saved so far
    ghost predicate Valid()
      reads this
    {
      && write == Render(None, saved)
      && checksum == "{" + Hashed(None, saved)
      && sectionLast == LastSection(None, saved)
    }

    constructor ()
      ensures Valid() && saved == []
    {
      write, checksum, sectionLast, saved := "", "{", None, [];
    }

    // infoSaveValue
    method SaveValue(section: string, key: string, value: string)
      requires Valid()
      requires value != "" && value[0] != '['
      modifies this
      ensures Valid() && saved == old(saved) + [Entry(section, key, value)]
    {
      hide Quote, Render, Hashed;
      RenderAppend(None, saved, Entry(section, key, value));
      if sectionLast.None? || sectionLast.value != section {
        if sectionLast.Some? {
          checksum := checksum + "},";
          write := write + "\n";
        }
        checksum := checksum + "\"" + section + "\":{";
        write := write + "[" + section + "]\n";
        sectionLast := Some(section);
      } else {
        checksum := checksum + ",";
      }
      assert write == old(write) + HeaderText(old(sectionLast), section);
      assert checksum == old(checksum) + HashHeader(old(sectionLast), section);
      Append(old(checksum), HashHeader(old(sectionLast), section), Quote(key), ":", value, "");
      Append(old(write), HeaderText(old(sectionLast), section), key, "=", value, "\n");
      checksum := checksum + Quote(key) + ":" + value;
      write := write + key + "=" + value + "\n";
      saved := saved + [Entry(section, key, value)];
    }

    // A save callback: every section that is due is saved with all its values
    method RunCallback(groups: seq<Group>, next: Option<string>)
      requires Valid()
      requires forall g, item :: g in groups && item in g.items ==> item.1 != "" && item.1[0] != '['
      modifies this
      ensures Valid() && saved == old(saved) + Offer(LastSection(None, old(saved)), groups, next)
    {
      hide Render, Hashed, Less;
      var i := 0;
      assert groups[0..] == groups;
      while i < |groups|
        invariant i <= |groups| && Valid()
        invariant saved + Offer(LastSection(None, saved), groups[i..], next)
               == old(saved) + Offer(LastSection(None, old(saved)), groups, next)
      {
        var g := groups[i];
        ghost var before := saved;
        assert groups[i..][0] == g && groups[i..][1..] == groups[i + 1..];
        if SaveSection(sectionLast, g.section, next) {
          SaveItems(g);
          assert LastSection(None, saved) == LastSection(LastSection(None, before), EntriesOf(g));
          assert saved + Offer(LastSection(None, saved), groups[i + 1..], next)
              == before + Offer(LastSection(None, before), groups[i..], next);
        }
        i := i + 1;
      }
      assert groups[i..] == [];
    }

    // The values of one section
    method SaveItems(g: Group)
      requires Valid()
      requires forall item :: item in g.items ==> item.1 != "" && item.1[0] != '['
      modifies this
      ensures Valid() && saved == old(saved) + EntriesOf(g)
    {
      hide Render, Hashed;
      var k := 0;
      while k < |g.items|
        invariant k <= |g.items| && Valid()
        invariant saved == old(saved) + EntriesOf(g)[..k]
      {
        assert g.items[k] in g.items;
        SaveValue(g.section, g.items[k].0, g.items[k].1);
        k := k + 1;
      }
    }
  }

  // infoSave
  method Save(hash: string -> string, version: string, cipherPass: Option<string>, groups: seq<Group>)
    returns (file: string)
    requires forall g, item :: g in groups && item in g.items ==> item.1 != "" && item.1[0] != '['
    ensures file == FileText(hash, Saved(version, cipherPass, groups))
  {
    hide Render, Hashed, Offer, Escaped;
    var data := new InfoSave();
    data.RunCallback(groups, Some(BACKREST));
    data.SaveValue(BACKREST, KEY_FORMAT, "5");
    data.SaveValue(BACKREST, KEY_VERSION, Quote(version));
    ghost var before := Offer(None, groups, Some(BACKREST)) + BackrestEntries(version);
    assert data.saved == before;
    if cipherPass.Some? {
      data.RunCallback(groups, Some(CIPHER));
      data.SaveValue(CIPHER, KEY_CIPHER_PASS, Quote(cipherPass.value));
      assert data.saved == before + Offer(Some(BACKREST), groups, Some(CIPHER)) + CipherEntries(cipherPass.value);
    }
    data.RunCallback(groups, None);
    assert data.saved == Saved(version, cipherPass, groups);
    var checksum := data.checksum + "}}";
    var tail := "\n[backrest]\nbackrest-checksum=" + Quote(hash(checksum)) + "\n";
    file := data.write + tail;
  }

  lemma {:induction false} RenderAppend(last: Option<string>, entries: seq<Entry>, e: Entry)
    ensures Render(last, entries + [e]) == Render(last, entries) + LineText(LastSection(last, entries), e)
    ensures Hashed(last, entries + [e]) == Hashed(last, entries) + HashText(LastSection(last, entries), e)
    decreases |entries|
  {
    hide LineText, HashText;
    if entries == [] {
      assert entries + [e] == [e];
    } else {
      assert (entries + [e])[1..] == entries[1..] + [e];
      var next := Some(entries[0].section);
      RenderAppend(next, entries[1..], e);
      Regroup(LineText(last, entries[0]), Render(next, entries[1..]), LineText(LastSection(last, entries), e));
      Regroup(HashText(last, entries[0]), Hashed(next, entries[1..]), HashText(LastSection(last, entries), e));
    }
  }

  lemma Append(a: string, b: string, c: string, d: string, e: string, f: string)
    ensures a + b + c + d + e + f == a + (b + c + d + e + f)
    ensures a + b + c + d + e == a + (b + c + d + e)
  {
    assert a + b + c == a + (b + c);
    assert a + b + c + d == a + (b + c + d);
    assert a + b + c + d + e == a + (b + c + d + e);
  }
}
