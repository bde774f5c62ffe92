// common/type/json.c: the reader that decides whether an ini value is valid JSON, and the writer of strings.
//
// The reader walks a zero-terminated text. The model keeps the walk as a position in the text, so reading at the length
// of the text reads the terminator, and says with Overrun when the walk would step past it.
module Json {
  import opened Decimals

  // Asserts are compiled in for tests and left out of production builds, where an assertion that would fail has no
  // effect
  datatype Stop = Assertion | OutOfRange | Overrun

  // Malformed is JsonFormatError. A Stopped walk ends in some other way: AssertError, FormatError or a read out of
  // bounds.
  datatype Scan = At(pos: nat) | Malformed | Stopped(why: Stop)

  datatype Type = Text | Number | Bool | Null | ArrayBegin | ArrayEnd | ObjectBegin | ObjectEnd | Unknown

  const DIGIT_MAX := 64
  const UINT64_MAX := 0xFFFF_FFFF_FFFF_FFFF
  const INT64_MIN: int := -0x8000_0000_0000_0000

  function Peek(s: string, i: nat): char {
    if i < |s| then s[i] else '\0'
  }

  predicate IsSpace(c: char) {
    c == ' ' || c == '\t' || c == '\n' || c == '\r'
  }

  function SkipSpace(s: string, i: nat): (r: nat)
    requires i <= |s|
    ensures i <= r <= |s|
    ensures forall k :: i <= k < r ==> IsSpace(s[k])
    ensures !IsSpace(Peek(s, r))
    decreases |s| - i
  {
    if i < |s| && IsSpace(s[i]) then SkipSpace(s, i + 1) else i
  }

  function TypeOf(c: char): Type {
    if c == '"' then Text
    else if c == '-' || IsDigit(c) then Number
    else if c == 't' || c == 'f' then Bool
    else if c == 'n' then Null
    else if c == '[' then ArrayBegin
    else if c == ']' then ArrayEnd
    else if c == '{' then ObjectBegin
    else if c == '}' then ObjectEnd
    else Unknown
  }

  // The type of what comes next, ignoring a single comma before it
  function NextType(s: string, i: nat): Type
    requires i <= |s|
  {
    var j := SkipSpace(s, i);
    if Peek(s, j) == ',' then TypeOf(Peek(s, SkipSpace(s, j + 1))) else TypeOf(Peek(s, j))
  }

  // Move to a value of the type just seen. The comma is consumed only where an element came before, so a comma that was
  // ignored while looking at the type may still be under the reader.
  function Push(s: string, i: nat, comma: bool): (r: Scan)
    requires i <= |s|
    ensures !r.Stopped?
    ensures r.At? ==> i <= r.pos <= |s|
  {
    var j := SkipSpace(s, i);
    if !comma then At(j)
    else if Peek(s, j) != ',' then Malformed
    else At(SkipSpace(s, j + 1))
  }

  // The rest of a string. After the four digits of \u one more character is skipped, whatever it is.
  function StringBody(s: string, i: nat): (r: Scan)
    requires i <= |s|
    ensures r.At? ==> i < r.pos <= |s| && s[r.pos - 1] == '"'
    decreases |s| - i
  {
    var c := Peek(s, i);
    if c == '"' then At(i + 1)
    else if c == '\\' then
      if Peek(s, i + 1) == 'u' then
        if !(forall k :: i + 2 <= k < i + 6 ==> IsDigit(Peek(s, k))) then Malformed
        else if i + 6 < |s| then StringBody(s, i + 7)
        else Stopped(Overrun)
      else if i + 1 < |s| then StringBody(s, i + 2)
      else Stopped(Overrun)
    else if c == '\0' then Malformed
    else StringBody(s, i + 1)
  }

  function SkipString(asserts: bool, s: string, i: nat): (r: Scan)
    requires i < |s|
    ensures r.At? ==> i < r.pos <= |s| && s[r.pos - 1] == '"'
  {
    if asserts && s[i] != '"' then Stopped(Assertion) else StringBody(s, i + 1)
  }

  function SkipWord(s: string, i: nat, word: string): (r: Scan)
    requires |word| > 0
    ensures !r.Stopped?
    ensures r.At? ==> i < r.pos <= |s| && s[i..r.pos] == word
  {
    if i + |word| <= |s| && s[i..i + |word|] == word then At(i + |word|) else Malformed
  }

  function SkipDigits(s: string, i: nat): (r: nat)
    requires i <= |s|
    ensures i <= r <= |s|
    ensures forall k :: i <= k < r ==> IsDigit(s[k])
    decreases |s| - i
  {
    if i < |s| && IsDigit(s[i]) then SkipDigits(s, i + 1) else i
  }

  function SkipNumber(s: string, i: nat): (r: Scan)
    requires i <= |s|
    ensures r.At? ==> i < r.pos <= |s| && IsDigit(s[r.pos - 1])
  {
    var from := if Peek(s, i) == '-' then i + 1 else i;
    var to := SkipDigits(s, from);
    if to == from || to - from >= DIGIT_MAX then Malformed
    else
      var n := Decimal(s[from..to]);
      if (if from == i then n > UINT64_MAX else n > -INT64_MIN) then Stopped(OutOfRange) else At(to)
  }

  // Skip one value. A comma must come first where an array element came before.
  function SkipValue(asserts: bool, s: string, i: nat, comma: bool): (r: Scan)
    requires i <= |s|
    ensures r.At? ==> i < r.pos <= |s|
    decreases |s| - i, 0
  {
    var t := NextType(s, i);
    var p := Push(s, i, comma);
    if t == ArrayEnd || t == ObjectEnd || t == Unknown || p == Malformed then Malformed
    else if t == Text then SkipString(asserts, s, p.pos)
    else if t == Number then SkipNumber(s, p.pos)
    else if t == Bool then
      var r := SkipWord(s, p.pos, "true");
      if r.At? then r else SkipWord(s, p.pos, "false")
    else if t == Null then SkipWord(s, p.pos, "null")
    else if t == ArrayBegin then SkipElements(asserts, s, p.pos + 1, false)
    else SkipMembers(asserts, s, p.pos + 1, false)
  }

  function SkipElements(asserts: bool, s: string, i: nat, comma: bool): (r: Scan)
    requires i <= |s|
    ensures r.At? ==> i < r.pos <= |s|
    decreases |s| - i, 1
  {
    var t := NextType(s, i);
    if t == ArrayEnd then SkipEnd(s, i, ']')
    else
      var r := SkipValue(asserts, s, i, comma);
      if r.At? then SkipElements(asserts, s, r.pos, true) else r
  }

  function SkipMembers(asserts: bool, s: string, i: nat, comma: bool): (r: Scan)
    requires i <= |s|
    ensures r.At? ==> i < r.pos <= |s|
    decreases |s| - i, 1
  {
    var t := NextType(s, i);
    if t == ObjectEnd then SkipEnd(s, i, '}')
    else
      var k := SkipKey(asserts, s, i, comma);
      if !k.At? then k
      else
        var r := SkipValue(asserts, s, k.pos, false);
        if r.At? then SkipMembers(asserts, s, r.pos, true) else r
  }

  // The key of an object member and the colon after it
  function SkipKey(asserts: bool, s: string, i: nat, comma: bool): (r: Scan)
    requires i <= |s|
    ensures r.At? ==> i < r.pos <= |s|
  {
    var p := Push(s, i, comma);
    if NextType(s, i) != Text || p == Malformed then Malformed
    else
      var k := SkipString(asserts, s, p.pos);
      if !k.At? then k
      else
        var j := SkipSpace(s, k.pos);
        if Peek(s, j) == ':' then At(j + 1) else Malformed
  }

  // A container ends only where no comma comes before the end
  function SkipEnd(s: string, i: nat, end: char): (r: Scan)
    requires i <= |s|
    requires end != '\0'
    ensures r.At? ==> i < r.pos <= |s| && s[r.pos - 1] == end
  {
    var j := SkipSpace(s, i);
    if Peek(s, j) == end then At(j + 1) else Malformed
  }

  // jsonValidate: the whole text is one value with optional space around it
  function Validate(asserts: bool, s: string): (r: Scan)
    ensures r.At? ==> r.pos == |s| || (r.pos < |s| && s[r.pos] == '\0')
    ensures r.At? ==> SkipValue(asserts, s, 0, false).At? && SkipValue(asserts, s, 0, false).pos <= r.pos
  {
    var r := SkipValue(asserts, s, 0, false);
    if !r.At? then r
    else
      var end := SkipSpace(s, r.pos);
      if Peek(s, end) == '\0' then At(end) else Malformed
  }

  predicate Accepted(asserts: bool, s: string) {
    Validate(asserts, s).At?
  }
}
