// common/encode.c: base64, base64url and hex. Text is kept as bytes, as in the original; section numbers are of RFC
// 4648.
module Encode {
  import opened Sequences

  type Byte = bv8
  type Bytes = seq<bv8>

  const PAD: Byte := 0x3d
  const NONE: Byte := 0xff  // -1 in the decode tables

  // ---- the tables

  // encodeBase64Lookup, section 4
  function Symbol(v: Byte): Byte
    requires v < 64
  {
    if v < 26 then v + 0x41 else if v < 52 then v + 0x47 else if v < 62 then v - 4 else if v == 62 then 0x2b else 0x2f
  }

  // encodeBase64LookupUrl, section 5
  function SymbolUrl(v: Byte): Byte
    requires v < 64
  {
    if v < 62 then Symbol(v) else if v == 62 then 0x2d else 0x5f
  }

  // decodeBase64Lookup
  function Value(c: Byte): Byte {
    if 0x41 <= c <= 0x5a then c - 0x41
    else if 0x61 <= c <= 0x7a then c - 0x47
    else if 0x30 <= c <= 0x39 then c + 4
    else if c == 0x2b then 62
    else if c == 0x2f then 63
    else NONE
  }

  // One digit of encodeHexLookup, section 8 in lower case
  function HexSymbol(v: Byte): Byte
    requires v < 16
  {
    if v < 10 then v + 0x30 else v + 0x57
  }

  // decodeHexLookup, either case
  function HexValue(c: Byte): Byte {
    if 0x30 <= c <= 0x39 then c - 0x30
    else if 0x41 <= c <= 0x46 then c - 0x37
    else if 0x61 <= c <= 0x66 then c - 0x57
    else NONE
  }

  // ---- what the encoders compute

  function First(a: Byte): (r: Byte) ensures r < 64 { a >> 2 }
  function Second(a: Byte, b: Byte): (r: Byte) ensures r < 64 { ((a & 0x03) << 4) | ((b & 0xf0) >> 4) }
  function Third(b: Byte, c: Byte): (r: Byte) ensures r < 64 { ((b & 0x0f) << 2) | ((c & 0xc0) >> 6) }
  function Fourth(c: Byte): (r: Byte) ensures r < 64 { c & 0x3f }
  // the second and third where there is no next byte
  function SecondEnd(a: Byte): (r: Byte) ensures r < 64 { (a & 0x03) << 4 }
  function ThirdEnd(b: Byte): (r: Byte) ensures r < 64 { (b & 0x0f) << 2 }

  // The characters of the first three bytes, or of the one or two that are left
  function Group(s: Bytes): (r: Bytes)
    requires |s| > 0
    ensures |r| == 4
  {
    if |s| == 1 then [Symbol(First(s[0])), Symbol(SecondEnd(s[0])), PAD, PAD]
    else if |s| == 2 then [Symbol(First(s[0])), Symbol(Second(s[0], s[1])), Symbol(ThirdEnd(s[1])), PAD]
    else [Symbol(First(s[0])), Symbol(Second(s[0], s[1])), Symbol(Third(s[1], s[2])), Symbol(Fourth(s[2]))]
  }

  function GroupUrl(s: Bytes): (r: Bytes)
    requires |s| > 0
    ensures |r| == if |s| < 3 then |s| + 1 else 4
  {
    if |s| == 1 then [SymbolUrl(First(s[0])), SymbolUrl(SecondEnd(s[0]))]
    else if |s| == 2 then [SymbolUrl(First(s[0])), SymbolUrl(Second(s[0], s[1])), SymbolUrl(ThirdEnd(s[1]))]
    else [SymbolUrl(First(s[0])), SymbolUrl(Second(s[0], s[1])), SymbolUrl(Third(s[1], s[2])), SymbolUrl(Fourth(s[2]))]
  }

  function Rest(s: Bytes): Bytes {
    if |s| <= 3 then [] else s[3..]
  }

  function Base64(s: Bytes): (r: Bytes)
    ensures |r| == Base64Size(|s|)
    decreases |s|
  {
    if |s| == 0 then [] else Group(s) + Base64(Rest(s))
  }

  function Base64Url(s: Bytes): (r: Bytes)
    ensures |r| == Base64UrlSize(|s|)
    decreases |s|
  {
    if |s| == 0 then [] else GroupUrl(s) + Base64Url(Rest(s))
  }

  function Hex(s: Bytes): (r: Bytes)
    ensures |r| == 2 * |s|
  {
    if |s| == 0 then [] else [HexSymbol(s[0] >> 4), HexSymbol(s[0] & 0x0f)] + Hex(s[1..])
  }

  // encodeToStrSizeBase64
  function Base64Size(n: nat): nat {
    (n + 2) / 3 * 4
  }

  // encodeToStrSizeBase64Url
  function Base64UrlSize(n: nat): nat {
    n / 3 * 4 + (if n % 3 == 0 then 0 else n % 3 + 1)
  }

  // ---- what the decoders compute

  predicate ValidBase64(t: Bytes) {
    && |t| % 4 == 0
    && forall i :: 0 <= i < |t| ==>
         if t[i] == PAD then i >= |t| - 2 && t[|t| - 1] == PAD else Value(t[i]) != NONE
  }

  predicate ValidHex(t: Bytes) {
    |t| % 2 == 0 && forall i :: 0 <= i < |t| ==> HexValue(t[i]) != NONE
  }

  function Join1(a: Byte, b: Byte): Byte { (a << 2) | (b >> 4) }
  function Join2(b: Byte, c: Byte): Byte { (b << 4) | (c >> 2) }
  function Join3(c: Byte, d: Byte): Byte { ((c << 6) & 0xc0) | d }

  function DecodeGroup(t: Bytes): Bytes
    requires |t| == 4
  {
    [Join1(Value(t[0]), Value(t[1]))]
    + (if t[2] != PAD then [Join2(Value(t[1]), Value(t[2]))] else [])
    + (if t[3] != PAD then [Join3(Value(t[2]), Value(t[3]))] else [])
  }

  function Decode(t: Bytes): Bytes
    requires |t| % 4 == 0
  {
    if |t| == 0 then [] else DecodeGroup(t[..4]) + Decode(t[4..])
  }

  // decodeToBinSizeBase64 reads the last character, so the text must have one
  function DecodeSize(t: Bytes): nat
    requires ValidBase64(t) && |t| > 0
  {
    |t| / 4 * 3 - (if t[|t| - 1] == PAD then (if t[|t| - 2] == PAD then 2 else 1) else 0)
  }

  function DecodeHex(t: Bytes): (r: Bytes)
    requires |t| % 2 == 0
    ensures |r| == |t| / 2
  {
    if |t| == 0 then [] else [(HexValue(t[0]) << 4) | HexValue(t[1])] + DecodeHex(t[2..])
  }

  // ---- the loops

  // One round of the loop of encodeToStrBase64
  method EncodeGroup(source: array<Byte>, si: nat, destination: array<Byte>, di: nat)
    requires source != destination && si < source.Length && di + 4 <= destination.Length
    modifies destination
    ensures destination[di..di + 4] == Group(source[si..])
    ensures forall k :: 0 <= k < di || di + 4 <= k < destination.Length ==> destination[k] == old(destination[k])
  {
    hide First, Second, Third, Fourth, SecondEnd, ThirdEnd, Symbol;
    destination[di] := Symbol(First(source[si]));
    if source.Length - si == 1 {
      destination[di + 1] := Symbol(SecondEnd(source[si]));
      destination[di + 2] := PAD;
      destination[di + 3] := PAD;
    } else {
      destination[di + 1] := Symbol(Second(source[si], source[si + 1]));
      if source.Length - si == 2 {
        destination[di + 2] := Symbol(ThirdEnd(source[si + 1]));
        destination[di + 3] := PAD;
      } else {
        destination[di + 2] := Symbol(Third(source[si + 1], source[si + 2]));
        destination[di + 3] := Symbol(Fourth(source[si + 2]));
      }
    }
  }

  lemma Base64Step(s: Bytes)
    ensures |s| == 0 ==> Base64(s) == []
    ensures |s| > 0 ==> Base64(s) == Group(s) + Base64(Rest(s))
  {
  }

  // encodeToStrBase64: the text and a terminating zero, and nothing beyond it
  method EncodeBase64(source: array<Byte>, destination: array<Byte>)
    requires source != destination && destination.Length > Base64Size(source.Length)
    modifies destination
    ensures destination[..Base64Size(source.Length)] == Base64(source[..])
    ensures destination[Base64Size(source.Length)] == 0
    ensures forall k :: Base64Size(source.Length) < k < destination.Length ==> destination[k] == old(destination[k])
  {
    hide Group, Base64, Base64Size, Rest;
    ghost var text := Base64(source[..]);
    ghost var left := source[..];
    ghost var done: Bytes := [];
    var di, si := 0, 0;
    while si < source.Length
      invariant left == if si < source.Length then source[si..] else []
      invariant di + |Base64(left)| == |text|
      invariant destination[..di] == done && done + Base64(left) == text
      invariant forall k :: |text| < k < destination.Length ==> destination[k] == old(destination[k])
      decreases source.Length - si
    {
      Base64Step(left);
      EncodeGroup(source, si, destination, di);
      assert destination[..di + 4] == done + Group(left);
      Regroup(done, Group(left), Base64(Rest(left)));
      done := done + Group(left);
      RestIs(source[..], si);
      left := Rest(left);
      di := di + 4;
      si := si + 3;
    }
    Base64Step(left);
    destination[di] := 0;
  }

  lemma Base64UrlStep(s: Bytes)
    ensures |s| == 0 ==> Base64Url(s) == []
    ensures |s| > 0 ==> Base64Url(s) == GroupUrl(s) + Base64Url(Rest(s))
  {
  }

  // One round of the loop of encodeToStrBase64Url
  method EncodeGroupUrl(source: array<Byte>, si: nat, destination: array<Byte>, di: nat) returns (next: nat)
    requires source != destination && si < source.Length && di + |GroupUrl(source[si..])| <= destination.Length
    modifies destination
    ensures next == di + |GroupUrl(source[si..])| && destination[di..next] == GroupUrl(source[si..])
    ensures forall k :: 0 <= k < di || next <= k < destination.Length ==> destination[k] == old(destination[k])
  {
    hide First, Second, Third, Fourth, SecondEnd, ThirdEnd, SymbolUrl;
    destination[di] := SymbolUrl(First(source[si]));
    if source.Length - si == 1 {
      destination[di + 1] := SymbolUrl(SecondEnd(source[si]));
      next := di + 2;
    } else {
      destination[di + 1] := SymbolUrl(Second(source[si], source[si + 1]));
      if source.Length - si == 2 {
        destination[di + 2] := SymbolUrl(ThirdEnd(source[si + 1]));
        next := di + 3;
      } else {
        destination[di + 2] := SymbolUrl(Third(source[si + 1], source[si + 2]));
        destination[di + 3] := SymbolUrl(Fourth(source[si + 2]));
        next := di + 4;
      }
    }
  }

  // encodeToStrBase64Url
  method EncodeBase64Url(source: array<Byte>, destination: array<Byte>)
    requires source != destination && destination.Length > Base64UrlSize(source.Length)
    modifies destination
    ensures destination[..Base64UrlSize(source.Length)] == Base64Url(source[..])
    ensures destination[Base64UrlSize(source.Length)] == 0
    ensures forall k :: Base64UrlSize(source.Length) < k < destination.Length ==> destination[k] == old(destination[k])
  {
    hide GroupUrl, Base64Url, Base64UrlSize, Rest;
    ghost var text := Base64Url(source[..]);
    ghost var left := source[..];
    ghost var done: Bytes := [];
    var di, si := 0, 0;
    while si < source.Length
      invariant left == if si < source.Length then source[si..] else []
      invariant di + |Base64Url(left)| == |text|
      invariant destination[..di] == done && done + Base64Url(left) == text
      invariant forall k :: |text| < k < destination.Length ==> destination[k] == old(destination[k])
      decreases source.Length - si
    {
      Base64UrlStep(left);
      var next := EncodeGroupUrl(source, si, destination, di);
      assert destination[..next] == done + GroupUrl(left);
      Regroup(done, GroupUrl(left), Base64Url(Rest(left)));
      done := done + GroupUrl(left);
      RestIs(source[..], si);
      left := Rest(left);
      di := next;
      si := si + 3;
    }
    Base64UrlStep(left);
    destination[di] := 0;
  }

  // encodeToStrHex
  method EncodeHex(source: array<Byte>, destination: array<Byte>)
    requires source != destination && destination.Length > 2 * source.Length
    modifies destination
    ensures destination[..2 * source.Length] == Hex(source[..])
    ensures destination[2 * source.Length] == 0
    ensures forall k :: 2 * source.Length < k < destination.Length ==> destination[k] == old(destination[k])
  {
    hide HexSymbol, Hex;
    ghost var done: Bytes := [];
    var di := 0;
    for si := 0 to source.Length
      invariant di == 2 * si && destination[..di] == done && done + Hex(source[si..]) == Hex(source[..])
      invariant forall k :: 2 * source.Length <= k < destination.Length ==> destination[k] == old(destination[k])
    {
      ghost var pair := [HexSymbol(source[si] >> 4), HexSymbol(source[si] & 0x0f)];
      PutPair(destination, di, HexSymbol(source[si] >> 4), HexSymbol(source[si] & 0x0f));
      HexStep(source[..], si);
      Regroup(done, pair, Hex(source[si + 1..]));
      done := done + pair;
      di := di + 2;
    }
    HexStep(source[..], source.Length);
    destination[di] := 0;
  }

  method PutPair(destination: array<Byte>, di: nat, a: Byte, b: Byte)
    requires di + 1 < destination.Length
    modifies destination
    ensures destination[..di + 2] == old(destination[..di]) + [a, b]
    ensures forall k :: 0 <= k < destination.Length && k != di && k != di + 1 ==> destination[k] == old(destination[k])
  {
    destination[di] := a;
    destination[di + 1] := b;
  }

  lemma HexStep(s: Bytes, i: nat)
    requires i <= |s|
    ensures i == |s| ==> Hex(s[i..]) == []
    ensures i < |s| ==> Hex(s[i..]) == [HexSymbol(s[i] >> 4), HexSymbol(s[i] & 0x0f)] + Hex(s[i + 1..])
  {
    if i < |s| {
      assert s[i..][1..] == s[i + 1..];
    }
  }

  // The answer of the validation loop: the first thing found wrong
  datatype Check = Correct | BadSize | BadPad | BadPadEnd | BadCharacter(position: nat)

  function CheckFrom(t: Bytes, i: nat): Check
    requires i <= |t| && |t| % 4 == 0
    decreases |t| - i
  {
    if i == |t| then Correct
    else if t[i] == PAD then
      if i < |t| - 2 then BadPad
      else if i == |t| - 2 && t[|t| - 1] != PAD then BadPadEnd
      else CheckFrom(t, i + 1)
    else if Value(t[i]) == NONE then BadCharacter(i)
    else CheckFrom(t, i + 1)
  }

  // A character may stand there: one of the alphabet, or padding that is last or before a last one
  predicate MayStand(t: Bytes, i: nat)
    requires i < |t|
  {
    if t[i] == PAD then i >= |t| - 2 && t[|t| - 1] == PAD else Value(t[i]) != NONE
  }

  // The first one that may not is a bad character, or padding too early, or padding without its second
  lemma {:induction false} CheckExactly(t: Bytes, from: nat, i: nat)
    requires |t| % 4 == 0 && from <= i < |t| && !MayStand(t, i) && forall j: nat :: from <= j < i ==> MayStand(t, j)
    ensures CheckFrom(t, from) == if t[i] != PAD then BadCharacter(i) else if i < |t| - 2 then BadPad else BadPadEnd
    decreases i - from
  {
    hide Value;
    if from < i {
      assert MayStand(t, from);
      CheckExactly(t, from + 1, i);
    }
  }

  // decodeToBinValidateBase64
  method ValidateBase64(source: Bytes) returns (check: Check)
    ensures check == if |source| % 4 != 0 then BadSize else CheckFrom(source, 0)
    ensures check == Correct <==> ValidBase64(source)
  {
    if |source| % 4 != 0 {
      return BadSize;
    }
    CheckIsValid(source, 0);
    for i := 0 to |source|
      invariant CheckFrom(source, i) == CheckFrom(source, 0)
    {
      if source[i] == PAD {
        if i < |source| - 2 {
          return BadPad;
        }
        if i == |source| - 2 && source[|source| - 1] != PAD {
          return BadPadEnd;
        }
      } else if Value(source[i]) == NONE {
        return BadCharacter(i);
      }
    }
    return Correct;
  }

  lemma {:induction false} CheckIsValid(t: Bytes, from: nat)
    requires from <= |t| && |t| % 4 == 0
    ensures CheckFrom(t, from) == Correct <==>
            forall i :: from <= i < |t| ==>
              if t[i] == PAD then i >= |t| - 2 && t[|t| - 1] == PAD else Value(t[i]) != NONE
    decreases |t| - from
  {
    hide Value;
    if from < |t| {
      CheckIsValid(t, from + 1);
    }
  }

  // One round of the loop of decodeToBinBase64
  method DecodeGroupInto(source: Bytes, si: nat, destination: array<Byte>, di: nat) returns (next: nat)
    requires si + 4 <= |source| && di + |DecodeGroup(source[si..si + 4])| <= destination.Length
    modifies destination
    ensures next == di + |DecodeGroup(source[si..si + 4])| && destination[di..next] == DecodeGroup(source[si..si + 4])
    ensures forall k :: 0 <= k < di || next <= k < destination.Length ==> destination[k] == old(destination[k])
  {
    hide Value, Join1, Join2, Join3;
    destination[di] := Join1(Value(source[si]), Value(source[si + 1]));
    next := di + 1;
    if source[si + 2] != PAD {
      destination[next] := Join2(Value(source[si + 1]), Value(source[si + 2]));
      next := next + 1;
    }
    if source[si + 3] != PAD {
      destination[next] := Join3(Value(source[si + 2]), Value(source[si + 3]));
      next := next + 1;
    }
  }

  // decodeToBinBase64, which rejects a text before it writes anything
  method DecodeBase64(source: Bytes, destination: array<Byte>) returns (check: Check)
    requires ValidBase64(source) ==> destination.Length >= |Decode(source)|
    modifies destination
    ensures check == Correct <==> ValidBase64(source)
    ensures check == Correct ==> destination[..|Decode(source)|] == Decode(source)
    ensures check == Correct ==>
              forall k :: |Decode(source)| <= k < destination.Length ==> destination[k] == old(destination[k])
    ensures check != Correct ==> destination[..] == old(destination[..])
  {
    hide Decode, DecodeGroup;
    check := ValidateBase64(source);
    if check != Correct {
      return;
    }
    hide ValidBase64;
    ghost var bytes := Decode(source);
    ghost var done: Bytes := [];
    var di, si := 0, 0;
    assert source[si..] == source;
    while si < |source|
      invariant si <= |source| && si % 4 == 0
      invariant di + |Decode(source[si..])| == |bytes|
      invariant destination[..di] == done && done + Decode(source[si..]) == bytes
      invariant forall k :: |bytes| <= k < destination.Length ==> destination[k] == old(destination[k])
    {
      DecodeStep(source, si);
      ghost var group := DecodeGroup(source[si..si + 4]);
      di := DecodeGroupInto(source, si, destination, di);
      assert destination[..di] == done + group;
      Regroup(done, group, Decode(source[si + 4..]));
      done := done + group;
      si := si + 4;
    }
    DecodeStep(source, si);
  }

  lemma DecodeStep(t: Bytes, i: nat)
    requires |t| % 4 == 0 && i <= |t| && i % 4 == 0
    ensures i == |t| ==> Decode(t[i..]) == []
    ensures i < |t| ==> Decode(t[i..]) == DecodeGroup(t[i..i + 4]) + Decode(t[i + 4..])
  {
    if i < |t| {
      assert t[i..][..4] == t[i..i + 4] && t[i..][4..] == t[i + 4..];
    }
  }

  method Put(destination: array<Byte>, di: nat, b: Byte)
    requires di < destination.Length
    modifies destination
    ensures destination[..di + 1] == old(destination[..di]) + [b]
    ensures forall k :: 0 <= k < destination.Length && k != di ==> destination[k] == old(destination[k])
  {
    destination[di] := b;
  }

  lemma DecodeHexStep(s: Bytes, i: nat)
    requires ValidHex(s) && i <= |s| && i % 2 == 0
    ensures i == |s| ==> DecodeHex(s[i..]) == []
    ensures i < |s| ==> DecodeHex(s[i..]) == [(HexValue(s[i]) << 4) | HexValue(s[i + 1])] + DecodeHex(s[i + 2..])
  {
    if i < |s| {
      assert s[i..][2..] == s[i + 2..];
    }
  }

  // decodeToBinHex
  method DecodeHexInto(source: Bytes, destination: array<Byte>) returns (check: Check)
    requires ValidHex(source) ==> destination.Length >= |source| / 2
    modifies destination
    ensures check == Correct <==> ValidHex(source)
    ensures check == Correct ==> destination[..|source| / 2] == DecodeHex(source)
    ensures check == Correct ==> forall k :: |source| / 2 <= k < destination.Length ==>
              destination[k] == old(destination[k])
    ensures check != Correct ==> destination[..] == old(destination[..])
  {
    hide HexValue, DecodeHex;
    if |source| % 2 != 0 {
      return BadSize;
    }
    for i := 0 to |source|
      invariant forall k :: 0 <= k < i ==> HexValue(source[k]) != NONE
    {
      if HexValue(source[i]) == NONE {
        return BadCharacter(i);
      }
    }
    hide ValidHex;
    DecodeHexAll(source, destination);
    return Correct;
  }

  // The second loop
  method DecodeHexAll(source: Bytes, destination: array<Byte>)
    requires ValidHex(source) && destination.Length >= |source| / 2
    modifies destination
    ensures destination[..|source| / 2] == DecodeHex(source)
    ensures forall k :: |source| / 2 <= k < destination.Length ==> destination[k] == old(destination[k])
  {
    hide HexValue, DecodeHex;
    ghost var done: Bytes := [];
    var di, si := 0, 0;
    DecodeHexStep(source, |source|);
    while si < |source|
      invariant si == 2 * di && si <= |source|
      invariant destination[..di] == done && done + DecodeHex(source[si..]) == DecodeHex(source)
      invariant forall k :: |source| / 2 <= k < destination.Length ==> destination[k] == old(destination[k])
    {
      var b := (HexValue(source[si]) << 4) | HexValue(source[si + 1]);
      DecodeHexStep(source, si);
      Put(destination, di, b);
      Regroup(done, [b], DecodeHex(source[si + 2..]));
      done := done + [b];
      di := di + 1;
      si := si + 2;
    }
  }

  lemma RestIs(s: Bytes, i: nat)
    requires i < |s|
    ensures Rest(s[i..]) == if i + 3 < |s| then s[i + 3..] else []
  {
  }
}
