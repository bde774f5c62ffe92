// common/type/json.c: strings written by jsonWriteStr and read back by jsonReadStr.
module JsonStrings {
  import opened Decimals
  import opened Json
  import opened JsonLex
  import opened Options
  import opened Strings

  const BACKSPACE := 8 as char
  const FORM_FEED := 12 as char

  // The letter an escape is written with, for the characters that are escaped
  function Letter(c: char): Option<char> {
    if c == '"' || c == '\\' then Some(c)
    else if c == '\n' then Some('n')
    else if c == '\r' then Some('r')
    else if c == '\t' then Some('t')
    else if c == BACKSPACE then Some('b')
    else if c == FORM_FEED then Some('f')
    else None
  }

  // One character as it is written
  function EscapedChar(c: char): (r: string)
    ensures |r| == if Letter(c).Some? then 2 else 1
  {
    match Letter(c)
    case Some(e) => ['\\', e]
    case None => [c]
  }

  function Escaped(s: string): (r: string)
    ensures '\n' !in r
    ensures CString(s) ==> CString(r)
  {
    if s == "" then ""
    else EscapedChar(s[0]) + Escaped(s[1..])
  }

  // jsonWriteStr
  function Quote(s: string): (r: string)
    ensures '\n' !in r
    ensures CString(s) ==> CString(r)
  {
    "\"" + Escaped(s) + "\""
  }

  function Unescape(e: char): Option<char> {
    if e == '"' || e == '\\' || e == '/' then Some(e)
    else if e == 'n' then Some('\n')
    else if e == 'r' then Some('\r')
    else if e == 't' then Some('\t')
    else if e == 'b' then Some(BACKSPACE)
    else if e == 'f' then Some(FORM_FEED)
    else None
  }

  function HexValue(c: char): (r: nat)
    requires IsHexDigit(c)
    ensures r < 16
  {
    if IsDigit(c) then c as int - '0' as int
    else if 'a' <= c <= 'f' then c as int - 'a' as int + 10
    else c as int - 'A' as int + 10
  }

  // The escapes are those of section 7 of RFC 8259: these letters are read as these characters, and what is written of
  // them are all but the solidus
  lemma EscapesExactly(c: char, e: char)
    ensures Unescape(e) == Some(c) <==>
            || (e == '"' && c == '"') || (e == '\\' && c == '\\') || (e == '/' && c == '/')
            || (e == 'b' && c as int == 0x08) || (e == 'f' && c as int == 0x0c) || (e == 'n' && c as int == 0x0a)
            || (e == 'r' && c as int == 0x0d) || (e == 't' && c as int == 0x09)
    ensures Letter(c) == Some(e) <==> Unescape(e) == Some(c) && c != '/'
  {
  }

  // jsonReadStr from after the opening quote: the characters read up to the closing one. Only \u00xx can be decoded.
  function Body(s: string, i: nat): Option<string>
    requires i <= |s|
    decreases |s| - i
  {
    var c := Peek(s, i);
    if c == '"' then Some("")
    else if c == '\0' then None
    else if c != '\\' then Prepend(c, Body(s, i + 1))
    else if i + 1 >= |s| then None
    else if s[i + 1] == 'u' then
      if i + 5 < |s| && s[i + 2] == '0' && s[i + 3] == '0' && IsHexDigit(s[i + 4]) && IsHexDigit(s[i + 5]) then
        Prepend((16 * HexValue(s[i + 4]) + HexValue(s[i + 5])) as char, Body(s, i + 6))
      else None
    else match Unescape(s[i + 1])
      case Some(e) => Prepend(e, Body(s, i + 2))
      case None => None
  }

  function Prepend(c: char, rest: Option<string>): Option<string> {
    match rest
    case Some(r) => Some([c] + r)
    case None => None
  }

  // The string a value stands for. Null stands for no string; any other kind of value is no string at all.
  function Unquote(s: string): Option<Option<string>> {
    var i := SkipSpace(s, 0);
    if SkipWord(s, i, "null").At? then Some(None)
    else if Peek(s, i) != '"' then None
    else match Body(s, i + 1)
      case Some(r) => Some(Some(r))
      case None => None
  }

  lemma EscapedStep(s: string)
    ensures Escaped("") == "" && (s != "" ==> Escaped(s) == EscapedChar(s[0]) + Escaped(s[1..]))
  {
  }

  lemma EscapedCharRead(c: char, t: string, i: nat)
    requires c != '\0' && Here(t, i, EscapedChar(c))
    ensures Body(t, i) == Prepend(c, Body(t, i + |EscapedChar(c)|))
  {
    HereFirst(t, i, EscapedChar(c));
  }

  lemma {:induction false} BodyEscaped(s: string, t: string, i: nat)
    requires CString(s) && Here(t, i, Escaped(s) + "\"")
    ensures Body(t, i) == Some(s)
    decreases |s|
  {
    EscapedStep(s);
    hide Escaped, EscapedChar;
    if s == "" {
      HereFirst(t, i, "\"");
    } else {
      hide Body;
      var rest := Escaped(s[1..]) + "\"";
      assert Escaped(s) + "\"" == EscapedChar(s[0]) + rest;
      HereSplit(t, i, EscapedChar(s[0]), rest);
      assert s[0] in s && s == [s[0]] + s[1..];
      EscapedCharRead(s[0], t, i);
      BodyEscaped(s[1..], t, i + |EscapedChar(s[0])|);
    }
  }

  // What is written reads back as itself
  lemma QuoteRoundTrip(s: string)
    requires CString(s)
    ensures Unquote(Quote(s)) == Some(Some(s))
  {
    assert Quote(s)[1..1 + |Escaped(s)| + 1] == Escaped(s) + "\"";
    BodyEscaped(s, Quote(s), 1);
  }

  lemma EscapedCharSkipped(c: char, t: string, i: nat)
    requires c != '\0' && Here(t, i, EscapedChar(c))
    ensures StringBody(t, i) == StringBody(t, i + |EscapedChar(c)|)
  {
    HereFirst(t, i, EscapedChar(c));
  }

  lemma {:induction false} StringBodyEscaped(s: string, t: string, i: nat)
    requires CString(s) && Here(t, i, Escaped(s) + "\"")
    ensures StringBody(t, i) == At(i + |Escaped(s)| + 1)
    decreases |s|
  {
    EscapedStep(s);
    hide Escaped, EscapedChar;
    if s == "" {
      HereFirst(t, i, "\"");
    } else {
      hide StringBody;
      var rest := Escaped(s[1..]) + "\"";
      assert Escaped(s) + "\"" == EscapedChar(s[0]) + rest;
      HereSplit(t, i, EscapedChar(s[0]), rest);
      assert s[0] in s;
      EscapedCharSkipped(s[0], t, i);
      StringBodyEscaped(s[1..], t, i + |EscapedChar(s[0])|);
    }
  }

  // What is written is a value for the reader
  lemma QuoteAccepted(asserts: bool, s: string)
    requires CString(s)
    ensures Accepted(asserts, Quote(s))
  {
    hide StringBody, SkipElements, SkipMembers, SkipNumber, SkipWord;
    var t := Quote(s);
    assert t[1..1 + |Escaped(s)| + 1] == Escaped(s) + "\"" && Here(t, 1, Escaped(s) + "\"");
    StringBodyEscaped(s, t, 1);
    assert SkipValue(asserts, t, 0, false) == At(|t|);
  }
}
