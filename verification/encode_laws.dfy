// What the encoders and decoders of common/encode.c promise together.
module EncodeLaws {
  import opened Encode

  // ---- the tables

  // The alphabet of section 4 begins with the upper case letters in order
  lemma AlphabetUpper()
    ensures [
      Symbol(0), Symbol(1), Symbol(2), Symbol(3), Symbol(4), Symbol(5), Symbol(6), Symbol(7), Symbol(8),
      Symbol(9), Symbol(10), Symbol(11), Symbol(12), Symbol(13), Symbol(14), Symbol(15), Symbol(16), Symbol(17),
      Symbol(18), Symbol(19), Symbol(20), Symbol(21), Symbol(22), Symbol(23), Symbol(24), Symbol(25)
    ] == [
      0x41, 0x42, 0x43, 0x44, 0x45, 0x46, 0x47, 0x48, 0x49, 0x4a, 0x4b, 0x4c, 0x4d,
      0x4e, 0x4f, 0x50, 0x51, 0x52, 0x53, 0x54, 0x55, 0x56, 0x57, 0x58, 0x59, 0x5a
    ]
  {
  }

  // Then come the lower case letters
  lemma AlphabetLower()
    ensures [
      Symbol(26), Symbol(27), Symbol(28), Symbol(29), Symbol(30), Symbol(31), Symbol(32), Symbol(33), Symbol(34),
      Symbol(35), Symbol(36), Symbol(37), Symbol(38), Symbol(39), Symbol(40), Symbol(41), Symbol(42), Symbol(43),
      Symbol(44), Symbol(45), Symbol(46), Symbol(47), Symbol(48), Symbol(49), Symbol(50), Symbol(51)
    ] == [
      0x61, 0x62, 0x63, 0x64, 0x65, 0x66, 0x67, 0x68, 0x69, 0x6a, 0x6b, 0x6c, 0x6d,
      0x6e, 0x6f, 0x70, 0x71, 0x72, 0x73, 0x74, 0x75, 0x76, 0x77, 0x78, 0x79, 0x7a
    ]
  {
  }

  // Then the digits, and "+" and "/", which section 5 replaces by "-" and "_"
  lemma AlphabetRest()
    ensures [
      Symbol(52), Symbol(53), Symbol(54), Symbol(55), Symbol(56), Symbol(57), Symbol(58), Symbol(59), Symbol(60),
      Symbol(61), Symbol(62), Symbol(63)
    ] == [
      0x30, 0x31, 0x32, 0x33, 0x34, 0x35, 0x36, 0x37, 0x38, 0x39, 0x2b, 0x2f
    ]
    ensures SymbolUrl(62) == 0x2d && SymbolUrl(63) == 0x5f
  {
  }

  // The alphabet of section 8 in lower case
  lemma HexAlphabet()
    ensures [
      HexSymbol(0), HexSymbol(1), HexSymbol(2), HexSymbol(3), HexSymbol(4), HexSymbol(5), HexSymbol(6), HexSymbol(7),
      HexSymbol(8), HexSymbol(9), HexSymbol(10), HexSymbol(11), HexSymbol(12), HexSymbol(13), HexSymbol(14),
      HexSymbol(15)
    ] == [
      0x30, 0x31, 0x32, 0x33, 0x34, 0x35, 0x36, 0x37, 0x38, 0x39, 0x61, 0x62, 0x63, 0x64, 0x65, 0x66
    ]
  {
  }

  // ---- the tables undo each other

  lemma ValueOfSymbol(v: Byte)
    requires v < 64
    ensures Value(Symbol(v)) == v && Symbol(v) != PAD
  {
  }

  lemma SymbolOfValue(c: Byte)
    requires Value(c) != NONE
    ensures Value(c) < 64 && Symbol(Value(c)) == c && c != PAD
  {
  }

  // Three bytes spread over four characters come back
  lemma BitsJoin(a: Byte, b: Byte, c: Byte)
    ensures Join1(First(a), Second(a, b)) == a && Join1(First(a), SecondEnd(a)) == a
    ensures Join2(Second(a, b), Third(b, c)) == b && Join2(Second(a, b), ThirdEnd(b)) == b
    ensures Join3(Third(b, c), Fourth(c)) == c
  {
  }

  // Four characters joined to three bytes come back, and so do two or three when the bits past the last byte are zero
  lemma BitsSplit(v: Byte, w: Byte, x: Byte, y: Byte)
    requires v < 64 && w < 64 && x < 64 && y < 64
    ensures First(Join1(v, w)) == v
    ensures Second(Join1(v, w), Join2(w, x)) == w && Third(Join2(w, x), Join3(x, y)) == x && Fourth(Join3(x, y)) == y
    ensures SecondEnd(Join1(v, w)) == w <==> w & 0x0f == 0
    ensures ThirdEnd(Join2(w, x)) == x <==> x & 0x03 == 0
  {
  }

  // ---- base64, decoded after encoding

  lemma GroupRoundTrip(s: Bytes)
    requires |s| > 0
    ensures DecodeGroup(Group(s)) == if |s| <= 3 then s else s[..3]
    ensures Group(s)[0] != PAD && Group(s)[1] != PAD
    ensures Group(s)[2] == PAD <==> |s| == 1
    ensures Group(s)[3] == PAD <==> |s| < 3
    ensures forall k :: 0 <= k < 4 ==> Group(s)[k] == PAD || Value(Group(s)[k]) != NONE
  {
    hide Symbol, Value, Join1, Join2, Join3, First, Second, Third, Fourth, SecondEnd, ThirdEnd;
    ValueOfSymbol(First(s[0]));
    ValueOfSymbol(SecondEnd(s[0]));
    var b := if |s| > 1 then s[1] else 0;
    var c := if |s| > 2 then s[2] else 0;
    ValueOfSymbol(Second(s[0], b));
    ValueOfSymbol(ThirdEnd(b));
    ValueOfSymbol(Third(b, c));
    ValueOfSymbol(Fourth(c));
    BitsJoin(s[0], b, c);
  }

  lemma ValidJoin(group: Bytes, rest: Bytes)
    requires |group| == 4 && ValidBase64(rest) && |rest| > 0
    requires forall k :: 0 <= k < 4 ==> group[k] != PAD && Value(group[k]) != NONE
    ensures ValidBase64(group + rest)
  {
    hide Value;
    var t := group + rest;
    assert t[|t| - 1] == rest[|rest| - 1];
    forall i | 0 <= i < |t|
      ensures if t[i] == PAD then i >= |t| - 2 && t[|t| - 1] == PAD else Value(t[i]) != NONE
    {
      assert t[i] == if i < 4 then group[i] else rest[i - 4];
    }
  }

  lemma {:induction false} Base64Valid(s: Bytes)
    ensures ValidBase64(Base64(s))
    decreases |s|
  {
    hide Group, Value;
    if |s| > 3 {
      GroupRoundTrip(s);
      Base64Valid(Rest(s));
      ValidJoin(Group(s), Base64(Rest(s)));
    } else if |s| > 0 {
      GroupRoundTrip(s);
      assert Base64(s) == Group(s);
    }
  }

  lemma {:induction false} DecodeJoin(group: Bytes, rest: Bytes)
    requires |group| == 4 && |rest| % 4 == 0
    ensures Decode(group + rest) == DecodeGroup(group) + Decode(rest)
  {
    assert (group + rest)[..4] == group && (group + rest)[4..] == rest;
  }

  lemma {:induction false} Base64Decodes(s: Bytes)
    ensures Decode(Base64(s)) == s
    decreases |s|
  {
    hide Group, DecodeGroup;
    if |s| > 0 {
      GroupRoundTrip(s);
      Base64Decodes(Rest(s));
      DecodeJoin(Group(s), Base64(Rest(s)));
      if |s| > 3 {
        assert s == s[..3] + s[3..];
      }
    }
  }

  // The size computed before decoding is the number of bytes decoded
  lemma {:induction false} DecodeSizeExact(t: Bytes)
    requires ValidBase64(t) && |t| > 0
    ensures |Decode(t)| == DecodeSize(t)
    decreases |t|
  {
    hide Value, Join1, Join2, Join3;
    assert Decode(t) == DecodeGroup(t[..4]) + Decode(t[4..]);
    if |t| > 4 {
      TailValid(t);
      DecodeSizeExact(t[4..]);
      assert t[2] != PAD && t[3] != PAD;
    } else {
      assert t[..4] == t && Decode(t[4..]) == [];
    }
  }

  lemma TailValid(t: Bytes)
    requires ValidBase64(t) && |t| > 4
    ensures ValidBase64(t[4..]) && t[4..][|t| - 5] == t[|t| - 1] && t[4..][|t| - 6] == t[|t| - 2]
    ensures forall k :: 0 <= k < 4 ==> t[k] != PAD
  {
    hide Value;
  }

  // Any bytes come back from their text, whose size is known before it is written
  lemma Base64RoundTrip(s: Bytes)
    ensures ValidBase64(Base64(s)) && Decode(Base64(s)) == s
    ensures |s| > 0 ==> DecodeSize(Base64(s)) == |s|
  {
    Base64Valid(s);
    Base64Decodes(s);
    if |s| > 0 {
      DecodeSizeExact(Base64(s));
    }
  }

  // ---- base64, encoded after decoding

  // The bits of the last character that are part of no byte (section 3.5)
  predicate ZeroPadBits(t: Bytes)
    requires ValidBase64(t) && |t| > 0
  {
    if t[|t| - 2] == PAD then Value(t[|t| - 3]) & 0x0f == 0
    else if t[|t| - 1] == PAD then Value(t[|t| - 2]) & 0x03 == 0
    else true
  }

  lemma LastGroupCanonical(t: Bytes)
    requires ValidBase64(t) && |t| == 4
    ensures Group(DecodeGroup(t)) == t <==> ZeroPadBits(t)
  {
    hide Symbol, Value, Join1, Join2, Join3, First, Second, Third, Fourth, SecondEnd, ThirdEnd;
    GroupCharacters(t);
    var v, w := Value(t[0]), Value(t[1]);
    var x := if t[2] == PAD then 0 else Value(t[2]);
    var y := if t[3] == PAD then 0 else Value(t[3]);
    BitsSplit(v, w, x, y);
    ValueOfSymbol(SecondEnd(Join1(v, w)));
    ValueOfSymbol(ThirdEnd(Join2(w, x)));
  }

  lemma GroupCharacters(t: Bytes)
    requires ValidBase64(t) && |t| >= 4
    ensures Value(t[0]) < 64 && Symbol(Value(t[0])) == t[0]
    ensures Value(t[1]) < 64 && Symbol(Value(t[1])) == t[1]
    ensures t[2] != PAD ==> Value(t[2]) < 64 && Symbol(Value(t[2])) == t[2]
    ensures t[3] != PAD ==> t[2] != PAD && Value(t[3]) < 64 && Symbol(Value(t[3])) == t[3]
  {
    SymbolOfValue(t[0]);
    SymbolOfValue(t[1]);
    hide Symbol, Value;
    if t[2] != PAD {
      SymbolOfValue(t[2]);
    }
    if t[3] != PAD {
      SymbolOfValue(t[3]);
    }
  }

  lemma FullGroupCanonical(t: Bytes)
    requires ValidBase64(t) && |t| > 4
    ensures |DecodeGroup(t[..4])| == 3 && Group(DecodeGroup(t[..4])) == t[..4]
  {
    hide Symbol, Value, Join1, Join2, Join3, First, Second, Third, Fourth, SecondEnd, ThirdEnd;
    TailValid(t);
    GroupCharacters(t);
    BitsSplit(Value(t[0]), Value(t[1]), Value(t[2]), Value(t[3]));
  }

  lemma GroupPrefix(a: Bytes, b: Bytes)
    requires |a| == 3
    ensures Base64(a + b) == Group(a) + Base64(b)
  {
    hide First, Second, Third, Fourth, Symbol;
    assert Rest(a + b) == b;
    assert Group(a + b) == Group(a);
  }

  lemma ZeroPadBitsTail(t: Bytes)
    requires ValidBase64(t) && |t| > 4 && ValidBase64(t[4..])
    ensures ZeroPadBits(t) <==> ZeroPadBits(t[4..])
  {
    hide Value, ValidBase64;
    assert |t| >= 8 by {
      assert |t| % 4 == 0 by {
        SizeOfValid(t);
      }
    }
    assert t[4..][|t| - 7] == t[|t| - 3] && t[4..][|t| - 6] == t[|t| - 2] && t[4..][|t| - 5] == t[|t| - 1];
  }

  lemma SizeOfValid(t: Bytes)
    requires ValidBase64(t)
    ensures |t| % 4 == 0
  {
  }

  // A valid text comes back from its bytes exactly when its pad bits are zero
  lemma {:induction false} Base64Canonical(t: Bytes)
    requires ValidBase64(t) && |t| > 0
    ensures Base64(Decode(t)) == t <==> ZeroPadBits(t)
    decreases |t|
  {
    hide Group, DecodeGroup, Value, ZeroPadBits, Base64;
    SizeOfValid(t);
    if |t| > 4 {
      TailValid(t);
      FullGroupCanonical(t);
      Base64Canonical(t[4..]);
      ZeroPadBitsTail(t);
      hide ValidBase64;
      GroupPrefix(DecodeGroup(t[..4]), Decode(t[4..]));
      SamePrefix(t[..4], Base64(Decode(t[4..])), t);
    } else {
      LastGroupCanonical(t);
      GroupSize(t);
      assert t[..4] == t && Decode(t[4..]) == [] && Decode(t) == DecodeGroup(t) + [];
      assert DecodeGroup(t) + [] == DecodeGroup(t);
      Base64Step(DecodeGroup(t));
      Base64Step([]);
      assert Group(DecodeGroup(t)) + [] == Group(DecodeGroup(t));
    }
  }

  lemma SamePrefix(a: Bytes, b: Bytes, t: Bytes)
    requires |a| <= |t| && t[..|a|] == a
    ensures a + b == t <==> b == t[|a|..]
  {
    assert t == t[..|a|] + t[|a|..];
    assert (a + b)[|a|..] == b;
  }

  lemma GroupSize(t: Bytes)
    requires |t| == 4
    ensures 1 <= |DecodeGroup(t)| <= 3
  {
  }

  // ---- base64url

  function Unpadded(t: Bytes): Bytes {
    if |t| > 0 && t[|t| - 1] == PAD then Unpadded(t[..|t| - 1]) else t
  }

  // "+" and "/" are written "-" and "_"
  function UrlCharacter(c: Byte): Byte {
    if c == 0x2b then 0x2d else if c == 0x2f then 0x5f else c
  }

  function UrlCharacters(t: Bytes): (r: Bytes)
    ensures |r| == |t|
  {
    seq(|t|, k requires 0 <= k < |t| => UrlCharacter(t[k]))
  }

  lemma UrlSymbol(v: Byte)
    requires v < 64
    ensures SymbolUrl(v) == UrlCharacter(Symbol(v)) && Symbol(v) != PAD
  {
  }

  lemma UrlGroup(s: Bytes)
    requires |s| > 0
    ensures GroupUrl(s) == UrlCharacters(Unpadded(Group(s)))
    ensures |s| >= 3 ==> Unpadded(Group(s)) == Group(s)
  {
    hide First, Second, Third, Fourth, SecondEnd, ThirdEnd, Symbol, SymbolUrl, UrlCharacter;
    var b := if |s| > 1 then s[1] else 0;
    var c := if |s| > 2 then s[2] else 0;
    UrlSymbol(First(s[0]));
    UrlSymbol(SecondEnd(s[0]));
    UrlSymbol(Second(s[0], b));
    UrlSymbol(ThirdEnd(b));
    UrlSymbol(Third(b, c));
    UrlSymbol(Fourth(c));
    var g := Group(s);
    if |s| == 1 {
      assert g[..3][..2] == g[..2] && Unpadded(g) == Unpadded(g[..3]) == Unpadded(g[..2]) == g[..2];
    } else if |s| == 2 {
      assert Unpadded(g) == Unpadded(g[..3]) == g[..3];
    }
  }

  lemma UnpaddedEmpty()
    ensures Unpadded([]) == []
  {
  }

  lemma {:induction false} UnpaddedJoin(a: Bytes, b: Bytes)
    requires Unpadded(a) == a
    ensures Unpadded(a + b) == a + Unpadded(b)
    decreases |b|
  {
    if |b| == 0 {
      assert a + b == a;
    } else if b[|b| - 1] == PAD {
      assert (a + b)[..|a + b| - 1] == a + b[..|b| - 1];
      UnpaddedJoin(a, b[..|b| - 1]);
    } else {
      assert (a + b)[|a + b| - 1] == b[|b| - 1];
    }
  }

  // base64url is base64 with two characters changed and the padding dropped
  lemma {:induction false} UrlFromBase64(s: Bytes)
    ensures Base64Url(s) == UrlCharacters(Unpadded(Base64(s)))
    decreases |s|
  {
    hide Group, GroupUrl, Unpadded, UrlCharacter;
    if |s| == 0 {
      UnpaddedEmpty();
    } else if |s| <= 3 {
      UrlGroup(s);
      assert Group(s) + [] == Group(s) && GroupUrl(s) + [] == GroupUrl(s);
    } else {
      UrlGroup(s);
      UrlFromBase64(Rest(s));
      UnpaddedJoin(Group(s), Base64(Rest(s)));
      assert UrlCharacters(Group(s) + Unpadded(Base64(Rest(s))))
          == UrlCharacters(Group(s)) + UrlCharacters(Unpadded(Base64(Rest(s))));
    }
  }

  // ---- hex

  lemma HexTables(v: Byte)
    requires v < 16
    ensures HexValue(HexSymbol(v)) == v && HexValue(HexSymbol(v)) != NONE
  {
  }

  lemma HexBits(b: Byte)
    ensures b >> 4 < 16 && b & 0x0f < 16 && ((b >> 4) << 4) | (b & 0x0f) == b
  {
  }

  // The text of one byte, and the byte of two digits
  lemma HexJoin(b: Byte, rest: Bytes)
    ensures b >> 4 < 16 && b & 0x0f < 16
    ensures Hex([b] + rest) == [HexSymbol(b >> 4), HexSymbol(b & 0x0f)] + Hex(rest)
  {
    HexBits(b);
    hide HexSymbol;
    assert ([b] + rest)[1..] == rest;
  }

  lemma DecodeHexJoin(b: Byte, c: Byte, d: Byte, rest: Bytes)
    requires HexValue(c) != NONE && HexValue(d) != NONE && ValidHex(rest) && (HexValue(c) << 4) | HexValue(d) == b
    ensures ValidHex([c, d] + rest) && DecodeHex([c, d] + rest) == [b] + DecodeHex(rest)
  {
    hide HexValue;
    assert ([c, d] + rest)[2..] == rest;
  }

  lemma HexByte(b: Byte)
    ensures b >> 4 < 16 && b & 0x0f < 16
    ensures HexValue(HexSymbol(b >> 4)) != NONE && HexValue(HexSymbol(b & 0x0f)) != NONE
    ensures (HexValue(HexSymbol(b >> 4)) << 4) | HexValue(HexSymbol(b & 0x0f)) == b
  {
    hide HexSymbol, HexValue;
    HexBits(b);
    HexTables(b >> 4);
    HexTables(b & 0x0f);
  }

  lemma {:induction false} HexRoundTrip(s: Bytes)
    ensures ValidHex(Hex(s)) && DecodeHex(Hex(s)) == s
    decreases |s|
  {
    hide HexSymbol, HexValue, DecodeHex, Hex, ValidHex;
    if |s| == 0 {
      HexNone();
    } else {
      HexRoundTrip(s[1..]);
      var b := s[0];
      HexByte(b);
      HexJoin(b, s[1..]);
      DecodeHexJoin(b, HexSymbol(b >> 4), HexSymbol(b & 0x0f), Hex(s[1..]));
      assert s == [b] + s[1..];
    }
  }

  lemma HexNone()
    ensures ValidHex([]) && DecodeHex([]) == [] && Hex([]) == []
  {
  }

  function Lower(c: Byte): Byte {
    if 0x41 <= c <= 0x46 then c + 0x20 else c
  }

  lemma HexDigits(c: Byte, d: Byte)
    requires HexValue(c) != NONE && HexValue(d) != NONE
    ensures var b := (HexValue(c) << 4) | HexValue(d);
            HexSymbol(b >> 4) == Lower(c) && HexSymbol(b & 0x0f) == Lower(d)
  {
  }

  // A valid hex text comes back in lower case
  lemma {:induction false} HexCanonical(t: Bytes)
    requires ValidHex(t)
    ensures |Hex(DecodeHex(t))| == |t| && forall k :: 0 <= k < |t| ==> Hex(DecodeHex(t))[k] == Lower(t[k])
    decreases |t|
  {
    hide HexSymbol, HexValue, Lower, Hex;
    if |t| > 0 {
      HexCanonical(t[2..]);
      HexDigits(t[0], t[1]);
      HexJoin((HexValue(t[0]) << 4) | HexValue(t[1]), DecodeHex(t[2..]));
    }
  }
}
