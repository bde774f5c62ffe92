// info/info.c: infoNewLoad, the loop that reads an info file back and builds the hashed text a second time.
module InfoLoads {
  import opened Decimals
  import opened Json
  import opened JsonStrings
  import opened Options
  import opened Inis
  import opened Infos

  datatype LoadError =
    | ReadError(error: Error)  // an error of the ini reader
    | WrongType                // a value of the backrest or cipher section has another type than it must have
    | WrongFormat
    | ChecksumMissing
    | ChecksumInvalid

  // The state of the loop: the last section ("" at first), the hashed text, what was found and what the callback was
  // given
  datatype State = State(
    sectionLast: string, hashed: string, version: Option<string>, cipherPass: Option<string>, expected: Option<string>,
    given: seq<Entry>)

  datatype Step = Next(state: State) | Wrong(error: LoadError)

  datatype Loaded = Loaded(info: Info, given: seq<Entry>) | LoadFailed(error: LoadError)

  const START := State("", "{", None, None, None, [])

  // A value read as an unsigned number
  function Unsigned(value: string): Option<nat> {
    var i := SkipSpace(value, 0);
    var r := SkipNumber(value, i);
    if r.At? && value[i] != '-' then Some(Decimal(value[i..r.pos])) else None
  }

  function HashPrefix(sectionLast: string, section: string): string {
    if sectionLast == "" || section != sectionLast then
      (if sectionLast != "" then "}," else "") + "\"" + section + "\":{"
    else ","
  }

  function HashStep(st: State, e: Entry): State {
    if e.section == BACKREST && e.key == KEY_CHECKSUM then st
    else
      st.(hashed := st.hashed + HashPrefix(st.sectionLast, e.section) + Quote(e.key) + ":" + e.value,
          sectionLast := e.section)
  }

  function Process(st: State, e: Entry): Step {
    if e.section == BACKREST then
      if e.key == KEY_FORMAT then
        var n := Unsigned(e.value);
        if n.None? then Wrong(WrongType) else if n.value != REPOSITORY_FORMAT then Wrong(WrongFormat) else Next(st)
      else if e.key == KEY_VERSION then
        var s := Unquote(e.value);
        if s.None? then Wrong(WrongType) else Next(st.(version := s.value))
      else if e.key == KEY_CHECKSUM then
        var s := Unquote(e.value);
        if s.None? then Wrong(WrongType) else Next(st.(expected := s.value))
      else Next(st)
    else if e.section == CIPHER then
      if e.key == KEY_CIPHER_PASS then
        var s := Unquote(e.value);
        if s.None? then Wrong(WrongType) else Next(st.(cipherPass := s.value))
      else Next(st)
    else Next(st.(given := st.given + [e]))
  }

  function Handle(st: State, e: Entry): Step {
    Process(HashStep(st, e), e)
  }

  function Verified(hash: string -> string, st: State): Loaded {
    if st.expected.None? then LoadFailed(ChecksumMissing)
    else if st.expected.value != hash(st.hashed + "}}") then LoadFailed(ChecksumInvalid)
    else Loaded(Info(st.version, st.cipherPass), st.given)
  }

  // What is loaded from here on
  function LoadFrom(asserts: bool, hash: string -> string, st: State, text: string, section: string): Loaded
    decreases |text|
  {
    var (outcome, rest, section') := NextValue(asserts, text, section);
    match outcome
    case Failed(error) => LoadFailed(ReadError(error))
    case Done => Verified(hash, st)
    case Found(e) =>
      match Handle(st, e)
      case Wrong(error) => LoadFailed(error)
      case Next(next) => LoadFrom(asserts, hash, next, rest, section')
  }

  // The checksum macros in the order the loop uses them
  method HashValue(sectionLast: string, hashed: string, e: Entry) returns (sectionLast': string, hashed': string)
    ensures sectionLast' == e.section
    ensures hashed' == hashed + HashPrefix(sectionLast, e.section) + Quote(e.key) + ":" + e.value
  {
    hide Quote;
    sectionLast', hashed' := sectionLast, hashed;
    if sectionLast == "" || e.section != sectionLast {
      Append(hashed, "},", "\"", e.section, "\":{", "");
      Append(hashed, "", "\"", e.section, "\":{", "");
      if sectionLast != "" {
        hashed' := hashed' + "},";
      }
      hashed' := hashed' + "\"" + e.section + "\":{";
      sectionLast' := e.section;
    } else {
      hashed' := hashed' + ",";
    }
    hashed' := hashed' + Quote(e.key) + ":" + e.value;
  }

  // infoNewLoad
  method Load(asserts: bool, hash: string -> string, text: string) returns (r: Loaded)
    ensures r == LoadFrom(asserts, hash, START, text, "")
  {
    hide NextValue, Unsigned, Unquote, Quote;
    var ini := new Ini(asserts, text);
    var sectionLast, hashed := "", "{";
    var version: Option<string>, cipherPass: Option<string>, expected: Option<string> := None, None, None;
    var given: seq<Entry> := [];
    var value := ini.ValueNext();
    ghost var unread := (text, "");
    while value.Found?
      invariant (value, ini.read, ini.section) == NextValue(asserts, unread.0, unread.1)
      invariant LoadFrom(asserts, hash, START, text, "")
             == LoadFrom(asserts, hash, State(sectionLast, hashed, version, cipherPass, expected, given), unread.0,
               unread.1)
      decreases |unread.0|
    {
      var e := value.entry;
      ghost var st := State(sectionLast, hashed, version, cipherPass, expected, given);
      if !(e.section == BACKREST && e.key == KEY_CHECKSUM) {
        sectionLast, hashed := HashValue(sectionLast, hashed, e);
      }
      assert HashStep(st, e) == State(sectionLast, hashed, version, cipherPass, expected, given);
      hide HashStep, HashPrefix;
      if e.section == BACKREST {
        if e.key == KEY_FORMAT {
          var n := Unsigned(e.value);
          if n.None? {
            return LoadFailed(WrongType);
          }
          if n.value != REPOSITORY_FORMAT {
            return LoadFailed(WrongFormat);
          }
        } else if e.key == KEY_VERSION || e.key == KEY_CHECKSUM {
          var s := Unquote(e.value);
          if s.None? {
            return LoadFailed(WrongType);
          }
          if e.key == KEY_VERSION {
            version := s.value;
          } else {
            expected := s.value;
          }
        }
      } else if e.section == CIPHER {
        if e.key == KEY_CIPHER_PASS {
          var s := Unquote(e.value);
          if s.None? {
            return LoadFailed(WrongType);
          }
          cipherPass := s.value;
        }
      } else {
        given := given + [e];
      }
      assert Handle(st, e) == Next(State(sectionLast, hashed, version, cipherPass, expected, given));
      unread := (ini.read, ini.section);
      value := ini.ValueNext();
    }
    if value.Failed? {
      return LoadFailed(ReadError(value.error));
    }
    hashed := hashed + "}}";
    if expected.None? {
      return LoadFailed(ChecksumMissing);
    }
    if expected.value != hash(hashed) {
      return LoadFailed(ChecksumInvalid);
    }
    return Loaded(Info(version, cipherPass), given);
  }
}
