/** googletest's UTF-8 encoder and validator, against the encoding of RFC 3629. */
module Utf8 {
  import opened Wrappers

  type Byte = bv8
  type CodePoint = bv32

  // ----- The encoding of RFC 3629, sections 3 and 4 -----

  /** A Unicode scalar value: a code point that is not a surrogate. */
  predicate IsScalar(c: CodePoint) {
    c <= 0x10FFFF && !(0xD800 <= c <= 0xDFFF)
  }

  /** The bits of c selected by the mask. */
  function Bits(c: bv32, mask: bv32): Byte
    requires mask < 0x100
  {
    (c & mask & 0xFF) as Byte
  }

  /** The octets of a character number of up to 21 bits: the low six bits go to the last octet, the
      next six to the one before, and so on; the first octet takes the rest and marks the length. */
  ghost function Encode(c: CodePoint): (s: seq<Byte>)
    ensures 1 <= |s| <= 4
  {
    if c <= 0x7F then [Bits(c, 0x7F)]
    else if c <= 0x7FF then [0xC0 | Bits(c >> 6, 0x1F), 0x80 | Bits(c, 0x3F)]
    else if c <= 0xFFFF then [0xE0 | Bits(c >> 12, 0x0F), 0x80 | Bits(c >> 6, 0x3F), 0x80 | Bits(c, 0x3F)]
    else [0xF0 | Bits(c >> 18, 0x07), 0x80 | Bits(c >> 12, 0x3F), 0x80 | Bits(c >> 6, 0x3F), 0x80 | Bits(c, 0x3F)]
  }

  ghost function EncodeAll(cs: seq<CodePoint>): seq<Byte> {
    if cs == [] then [] else Encode(cs[0]) + EncodeAll(cs[1..])
  }

  ghost predicate AllScalar(cs: seq<CodePoint>) {
    forall i :: 0 <= i < |cs| ==> IsScalar(cs[i])
  }

  /** cs is what the octets spell. */
  ghost predicate Spells(s: seq<Byte>, cs: seq<CodePoint>) {
    AllScalar(cs) && EncodeAll(cs) == s
  }

  // ----- Decoding -----

  predicate IsUTF8TrailByte(t: Byte) {
    0x80 <= t <= 0xBF
  }

  /** The length of the first character, or 0 when there is no well-formed one. */
  function HeadLength(s: seq<Byte>): (n: nat)
    ensures n <= |s| && n <= 4
  {
    if s == [] then 0
    else if s[0] <= 0x7F then 1
    else if s[0] < 0xC2 then 0
    else if s[0] <= 0xDF && |s| >= 2 && IsUTF8TrailByte(s[1]) then 2
    else if 0xE0 <= s[0] <= 0xEF && |s| >= 3 && IsUTF8TrailByte(s[1]) && IsUTF8TrailByte(s[2])
            && (s[0] != 0xE0 || s[1] >= 0xA0) && (s[0] != 0xED || s[1] < 0xA0) then 3
    else if 0xF0 <= s[0] <= 0xF4 && |s| >= 4 && IsUTF8TrailByte(s[1]) && IsUTF8TrailByte(s[2]) && IsUTF8TrailByte(s[3])
            && (s[0] != 0xF0 || s[1] >= 0x90) && (s[0] != 0xF4 || s[1] < 0x90) then 4
    else 0
  }

  ghost function DecodeHead(s: seq<Byte>): CodePoint
    requires HeadLength(s) > 0
  {
    match HeadLength(s)
    case 1 => s[0] as bv32
    case 2 => Two(s[0], s[1])
    case 3 => Three(s[0], s[1], s[2])
    case _ => Four(s[0], s[1], s[2], s[3])
  }

  function Two(a: Byte, b: Byte): CodePoint {
    ((a as bv32 & 0x1F) << 6) | (b as bv32 & 0x3F)
  }

  function Three(a: Byte, b: Byte, c: Byte): CodePoint {
    ((a as bv32 & 0x0F) << 12) | ((b as bv32 & 0x3F) << 6) | (c as bv32 & 0x3F)
  }

  function Four(a: Byte, b: Byte, c: Byte, d: Byte): CodePoint {
    ((a as bv32 & 0x07) << 18) | ((b as bv32 & 0x3F) << 12) | ((c as bv32 & 0x3F) << 6) | (d as bv32 & 0x3F)
  }

  ghost function Decode(s: seq<Byte>): Option<seq<CodePoint>> {
    if s == [] then Some([])
    else if HeadLength(s) == 0 then None
    else
      var rest := Decode(s[HeadLength(s)..]);
      if rest.Some? then Some([DecodeHead(s)] + rest.value) else None
  }

  // ----- One character -----

  lemma TwoDecodes(a: Byte, b: Byte)
    requires 0xC2 <= a <= 0xDF && IsUTF8TrailByte(b)
    ensures 0x80 <= Two(a, b) <= 0x7FF
    ensures 0xC0 | Bits(Two(a, b) >> 6, 0x1F) == a && 0x80 | Bits(Two(a, b), 0x3F) == b
  {
  }

  lemma ThreeDecodes(a: Byte, b: Byte, c: Byte)
    requires 0xE0 <= a <= 0xEF && IsUTF8TrailByte(b) && IsUTF8TrailByte(c)
    requires (a != 0xE0 || b >= 0xA0) && (a != 0xED || b < 0xA0)
    ensures 0x800 <= Three(a, b, c) <= 0xFFFF && !(0xD800 <= Three(a, b, c) <= 0xDFFF)
    ensures 0xE0 | Bits(Three(a, b, c) >> 12, 0x0F) == a
    ensures 0x80 | Bits(Three(a, b, c) >> 6, 0x3F) == b && 0x80 | Bits(Three(a, b, c), 0x3F) == c
  {
  }

  lemma FourDecodes(a: Byte, b: Byte, c: Byte, d: Byte)
    requires 0xF0 <= a <= 0xF4 && IsUTF8TrailByte(b) && IsUTF8TrailByte(c) && IsUTF8TrailByte(d)
    requires (a != 0xF0 || b >= 0x90) && (a != 0xF4 || b < 0x90)
    ensures 0x1_0000 <= Four(a, b, c, d) <= 0x10FFFF
    ensures 0xF0 | Bits(Four(a, b, c, d) >> 18, 0x07) == a && 0x80 | Bits(Four(a, b, c, d) >> 12, 0x3F) == b
    ensures 0x80 | Bits(Four(a, b, c, d) >> 6, 0x3F) == c && 0x80 | Bits(Four(a, b, c, d), 0x3F) == d
  {
  }

  lemma TwoEncodes(c: CodePoint)
    requires 0x80 <= c <= 0x7FF
    ensures 0xC2 <= 0xC0 | Bits(c >> 6, 0x1F) <= 0xDF && IsUTF8TrailByte(0x80 | Bits(c, 0x3F))
    ensures Two(0xC0 | Bits(c >> 6, 0x1F), 0x80 | Bits(c, 0x3F)) == c
  {
  }

  /** The third octet pattern reaches the surrogates, and only them, through a leading 0xED. */
  lemma ThreeEncodes(c: CodePoint)
    requires 0x800 <= c <= 0xFFFF
    ensures 0xE0 <= 0xE0 | Bits(c >> 12, 0x0F) <= 0xEF
    ensures IsUTF8TrailByte(0x80 | Bits(c >> 6, 0x3F)) && IsUTF8TrailByte(0x80 | Bits(c, 0x3F))
    ensures 0xE0 | Bits(c >> 12, 0x0F) == 0xE0 ==> 0x80 | Bits(c >> 6, 0x3F) >= 0xA0
    ensures 0xE0 | Bits(c >> 12, 0x0F) == 0xED && 0x80 | Bits(c >> 6, 0x3F) >= 0xA0 <==> 0xD800 <= c <= 0xDFFF
    ensures Three(0xE0 | Bits(c >> 12, 0x0F), 0x80 | Bits(c >> 6, 0x3F), 0x80 | Bits(c, 0x3F)) == c
  {
  }

  /** The fourth pattern reaches the numbers beyond the last code point from 0xF4 0x90 upwards. */
  lemma FourEncodes(c: CodePoint)
    requires 0x1_0000 <= c <= 0x1F_FFFF
    ensures 0xF0 <= 0xF0 | Bits(c >> 18, 0x07)
    ensures IsUTF8TrailByte(0x80 | Bits(c >> 12, 0x3F))
    ensures IsUTF8TrailByte(0x80 | Bits(c >> 6, 0x3F)) && IsUTF8TrailByte(0x80 | Bits(c, 0x3F))
    ensures 0xF0 | Bits(c >> 18, 0x07) == 0xF0 ==> 0x80 | Bits(c >> 12, 0x3F) >= 0x90
    ensures 0xF0 | Bits(c >> 18, 0x07) > 0xF4 ||
            (0xF0 | Bits(c >> 18, 0x07) == 0xF4 && 0x80 | Bits(c >> 12, 0x3F) >= 0x90)
            <==> c > 0x10FFFF
  {
  }

  lemma FourEncodesBack(c: CodePoint)
    requires c <= 0x1F_FFFF
    ensures Four(0xF0 | Bits(c >> 18, 0x07), 0x80 | Bits(c >> 12, 0x3F),
                 0x80 | Bits(c >> 6, 0x3F), 0x80 | Bits(c, 0x3F))
            == c
  {
  }

  lemma HeadOfTwo(a: Byte, b: Byte)
    requires 0xC2 <= a <= 0xDF && IsUTF8TrailByte(b)
    ensures IsScalar(Two(a, b)) && Encode(Two(a, b)) == [a, b]
  {
    TwoDecodes(a, b);
  }

  lemma HeadOfThree(a: Byte, b: Byte, c: Byte)
    requires 0xE0 <= a <= 0xEF && IsUTF8TrailByte(b) && IsUTF8TrailByte(c)
    requires (a != 0xE0 || b >= 0xA0) && (a != 0xED || b < 0xA0)
    ensures IsScalar(Three(a, b, c)) && Encode(Three(a, b, c)) == [a, b, c]
  {
    ThreeDecodes(a, b, c);
  }

  lemma HeadOfFour(a: Byte, b: Byte, c: Byte, d: Byte)
    requires 0xF0 <= a <= 0xF4 && IsUTF8TrailByte(b) && IsUTF8TrailByte(c) && IsUTF8TrailByte(d)
    requires (a != 0xF0 || b >= 0x90) && (a != 0xF4 || b < 0x90)
    ensures IsScalar(Four(a, b, c, d)) && Encode(Four(a, b, c, d)) == [a, b, c, d]
  {
    FourDecodes(a, b, c, d);
    assert Encode(Four(a, b, c, d)) == [0xF0 | Bits(Four(a, b, c, d) >> 18, 0x07),
                                        0x80 | Bits(Four(a, b, c, d) >> 12, 0x3F),
                                        0x80 | Bits(Four(a, b, c, d) >> 6, 0x3F), 0x80 | Bits(Four(a, b, c, d), 0x3F)];
  }

  /** A well-formed head is the encoding of the scalar value it decodes to. */
  lemma HeadIsEncoding(s: seq<Byte>)
    requires HeadLength(s) > 0
    ensures IsScalar(DecodeHead(s)) && Encode(DecodeHead(s)) == s[..HeadLength(s)]
  {
    match HeadLength(s)
    case 1 =>
      assert s[0] <= 0x7F;
    case 2 =>
      HeadOfTwo(s[0], s[1]);
      assert s[..2] == [s[0], s[1]];
    case 3 =>
      HeadOfThree(s[0], s[1], s[2]);
      assert s[..3] == [s[0], s[1], s[2]];
    case _ =>
      HeadOfFour(s[0], s[1], s[2], s[3]);
      assert s[..4] == [s[0], s[1], s[2], s[3]];
  }

  /** An encoded scalar value is a well-formed head that decodes to it, whatever follows. Other
      numbers of up to 21 bits have no well-formed encoding. */
  lemma EncodingIsHead(c: CodePoint, rest: seq<Byte>)
    requires c <= 0x1F_FFFF
    ensures IsScalar(c) ==> HeadLength(Encode(c) + rest) == |Encode(c)| && DecodeHead(Encode(c) + rest) == c
    ensures !IsScalar(c) ==> HeadLength(Encode(c) + rest) == 0
  {
    if c <= 0x7F {
    } else if c <= 0x7FF {
      TwoEncodes(c);
    } else if c <= 0xFFFF {
      ThreeEncodes(c);
    } else {
      FourEncodes(c);
      FourEncodesBack(c);
    }
  }

  // ----- Whole strings -----

  /** What spells a head followed by the rest is the head's value followed by what spells the rest. */
  lemma SpellsHead(s: seq<Byte>, cs: seq<CodePoint>)
    requires HeadLength(s) > 0 && cs != [] && cs[0] == DecodeHead(s)
    ensures Spells(s, cs) <==> Spells(s[HeadLength(s)..], cs[1..])
  {
    HeadIsEncoding(s);
    var n := HeadLength(s);
    assert s == s[..n] + s[n..];
    assert AllScalar(cs) <==> AllScalar(cs[1..]) by {
      assert cs == [cs[0]] + cs[1..];
    }
    SamePrefix(s[..n], s[n..], EncodeAll(cs[1..]));
  }

  lemma SamePrefix<T>(a: seq<T>, b: seq<T>, c: seq<T>)
    ensures a + b == a + c <==> b == c
  {
    assert b == (a + b)[|a|..] && c == (a + c)[|a|..];
  }

  /** A spelled string begins with the encoding of the first value. */
  lemma SpelledHead(s: seq<Byte>, cs: seq<CodePoint>)
    requires Spells(s, cs) && cs != []
    ensures s != [] && HeadLength(s) > 0 && DecodeHead(s) == cs[0]
  {
    EncodingIsHead(cs[0], EncodeAll(cs[1..]));
  }

  /** Decoding succeeds with cs exactly on the octets that spell cs. */
  lemma {:induction false} DecodeIffSpells(s: seq<Byte>, cs: seq<CodePoint>)
    ensures Decode(s) == Some(cs) <==> Spells(s, cs)
    decreases |s|
  {
    if cs == [] {
      assert Spells(s, cs) <==> s == [];
    } else if Spells(s, cs) {
      SpelledHead(s, cs);
      SpellsHead(s, cs);
      DecodeIffSpells(s[HeadLength(s)..], cs[1..]);
      assert cs == [cs[0]] + cs[1..];
    } else if Decode(s) == Some(cs) {
      DecodeIffSpells(s[HeadLength(s)..], cs[1..]);
      SpellsHead(s, cs);
    }
  }

  /** A string spells at most one sequence of scalar values. */
  lemma SpellingUnique(s: seq<Byte>, a: seq<CodePoint>, b: seq<CodePoint>)
    requires Spells(s, a) && Spells(s, b)
    ensures a == b
  {
    DecodeIffSpells(s, a);
    DecodeIffSpells(s, b);
  }

  lemma ValidIffDecodes(s: seq<Byte>)
    ensures Decode(s).Some? <==> exists cs :: Spells(s, cs)
  {
    if Decode(s).Some? {
      DecodeIffSpells(s, Decode(s).value);
    }
    if cs :| Spells(s, cs) {
      DecodeIffSpells(s, cs);
    }
  }

  method IsValidUTF8(s: seq<Byte>) returns (valid: bool)
    ensures valid <==> exists cs :: Spells(s, cs)
  {
    ValidIffDecodes(s);
    var i: nat := 0;
    assert s[0..] == s;
    while i < |s|
      invariant i <= |s| && (Decode(s).Some? <==> Decode(s[i..]).Some?)
      decreases |s| - i
    {
      ghost var rest := s[i..];
      assert forall k :: 0 <= k < |rest| ==> rest[k] == s[i + k];
      assert HeadLength(rest) > 0 ==> rest[HeadLength(rest)..] == s[i + HeadLength(rest)..];
      var lead := s[i];
      i := i + 1;
      if lead <= 0x7F {
        continue;
      }
      if lead < 0xC2 {
        return false;
      } else if lead <= 0xDF && i + 1 <= |s| && IsUTF8TrailByte(s[i]) {
        i := i + 1;
      } else if 0xE0 <= lead && lead <= 0xEF && i + 2 <= |s| && IsUTF8TrailByte(s[i]) && IsUTF8TrailByte(s[i + 1])
                && (lead != 0xE0 || s[i] >= 0xA0) && (lead != 0xED || s[i] < 0xA0) {
        i := i + 2;
      } else if 0xF0 <= lead && lead <= 0xF4 && i + 3 <= |s| && IsUTF8TrailByte(s[i]) && IsUTF8TrailByte(s[i + 1])
                && IsUTF8TrailByte(s[i + 2])
                && (lead != 0xF0 || s[i] >= 0x90) && (lead != 0xF4 || s[i] < 0x90) {
        i := i + 3;
      } else {
        return false;
      }
    }
    return true;
  }

  // ----- Encoding one code point -----

  const MAX_CODE_POINT_1: bv32 := 0x7F
  const MAX_CODE_POINT_2: bv32 := 0x7FF
  const MAX_CODE_POINT_3: bv32 := 0xFFFF
  const MAX_CODE_POINT_4: bv32 := 0x1F_FFFF

  /** ChopLowBits for the six bits every caller asks for: the low bits, and the number without them. */
  method ChopLowBits(bits: bv32) returns (low: bv32, rest: bv32)
    ensures low == bits & 0x3F && rest == bits >> 6
  {
    low := bits & ((1 << 6) - 1);
    rest := bits >> 6;
  }

  function Char(b: bv32): Byte {
    (b & 0xFF) as Byte
  }

  /** The string at the start of a NUL-terminated buffer. */
  function UntilNul(buffer: seq<Byte>): seq<Byte> {
    if buffer == [] || buffer[0] == 0 then [] else [buffer[0]] + UntilNul(buffer[1..])
  }

  lemma {:induction false} UntilNulAt(t: seq<Byte>)
    requires NulFree(t)
    ensures UntilNul(t + [0]) == t
  {
    if t != [] {
      UntilNulAt(t[1..]);
      assert (t + [0])[1..] == t[1..] + [0];
    }
  }

  ghost predicate NulFree(s: seq<Byte>) {
    forall i :: 0 <= i < |s| ==> s[i] != 0
  }

  /** The octets as the code assembles them, from the groups of six bits chopped off the number. */
  function Chopped(c: CodePoint): seq<Byte> {
    if c <= MAX_CODE_POINT_1 then [Char(c), 0]
    else if c <= MAX_CODE_POINT_2 then [Char(0xC0 | (c >> 6)), Char(0x80 | (c & 0x3F)), 0]
    else if c <= MAX_CODE_POINT_3 then
      [Char(0xE0 | (c >> 6 >> 6)), Char(0x80 | ((c >> 6) & 0x3F)), Char(0x80 | (c & 0x3F)), 0]
    else
      [Char(0xF0 | (c >> 6 >> 6 >> 6)), Char(0x80 | ((c >> 6 >> 6) & 0x3F)), Char(0x80 | ((c >> 6) & 0x3F)),
       Char(0x80 | (c & 0x3F)), 0]
  }

  lemma OctetsAgree(c: CodePoint)
    requires c <= MAX_CODE_POINT_4
    ensures Char(0x80 | (c & 0x3F)) == 0x80 | Bits(c, 0x3F) != 0
    ensures Char(0x80 | ((c >> 6) & 0x3F)) == 0x80 | Bits(c >> 6, 0x3F) != 0
    ensures Char(0x80 | ((c >> 6 >> 6) & 0x3F)) == 0x80 | Bits(c >> 12, 0x3F) != 0
    ensures 0 != c <= 0x7F ==> Char(c) == Bits(c, 0x7F) != 0
    ensures c <= 0x7FF ==> Char(0xC0 | (c >> 6)) == 0xC0 | Bits(c >> 6, 0x1F) != 0
    ensures c <= 0xFFFF ==> Char(0xE0 | (c >> 6 >> 6)) == 0xE0 | Bits(c >> 12, 0x0F) != 0
    ensures Char(0xF0 | (c >> 6 >> 6 >> 6)) == 0xF0 | Bits(c >> 18, 0x07) != 0
  {
  }

  /** They are those of the encoding, and none of them is NUL but that of NUL itself. */
  lemma ChoppedIsEncoding(c: CodePoint)
    requires 0 != c <= MAX_CODE_POINT_4
    ensures Chopped(c) == Encode(c) + [0] && NulFree(Encode(c))
  {
    OctetsAgree(c);
  }

  /** Encoding one number: what it spells, and whether it spells anything. NUL itself is lost. */
  lemma EncodingSpells(c: CodePoint, s: seq<Byte>)
    requires c <= 0x1F_FFFF && s == if c == 0 then [] else Encode(c)
    ensures Spells(s, [c]) <==> IsScalar(c) && c != 0
    ensures (exists cs :: Spells(s, cs)) <==> IsScalar(c)
  {
    assert EncodeAll([c]) == Encode(c) + EncodeAll([]) == Encode(c);
    if c == 0 {
      assert Spells(s, []);
    } else {
      EncodingIsHead(c, []);
      assert Encode(c) + [] == Encode(c);
      ValidIffDecodes(s);
      if IsScalar(c) {
        DecodeIffSpells(s, [c]);
      } else {
        assert !IsScalar([c][0]);
      }
    }
  }

  /** A surrogate, and the first number beyond the last code point, encode to octets that spell nothing. */
  lemma NotEveryEncodingIsValid()
    ensures forall cs :: !Spells(Encode(0xD800), cs) && !Spells(Encode(0x11_0000), cs)
  {
    EncodingSpells(0xD800, Encode(0xD800));
    EncodingSpells(0x11_0000, Encode(0x11_0000));
  }

  function HexDigits(value: bv32): seq<Byte>
    decreases value
  {
    (if value <= 0xF then [] else HexDigits(value >> 4)) + [HexDigit(Char(value & 0xF))]
  }

  function HexDigit(d: Byte): Byte {
    if d < 10 then 0x30 + d else 0x37 + d
  }

  /** "(Invalid Unicode 0x" and ")" in ASCII. */
  const INVALID: seq<Byte> := [0x28, 0x49, 0x6E, 0x76, 0x61, 0x6C, 0x69, 0x64]
  const UNICODE: seq<Byte> := [0x20, 0x55, 0x6E, 0x69, 0x63, 0x6F, 0x64, 0x65]
  const HEX_MARK: seq<Byte> := [0x20, 0x30, 0x78]
  const INVALID_PREFIX := INVALID + UNICODE + HEX_MARK
  const INVALID_SUFFIX: seq<Byte> := [0x29]

  ghost predicate Ascii(s: seq<Byte>) {
    forall i :: 0 <= i < |s| ==> s[i] <= 0x7F
  }

  lemma {:induction false} AsciiIsValid(s: seq<Byte>)
    requires Ascii(s)
    ensures Decode(s).Some?
  {
    if s != [] {
      AsciiIsValid(s[1..]);
    }
  }

  /** b is the upper-case hexadecimal digit for d: '0' to '9' and 'A' to 'F' in ASCII. */
  ghost predicate IsHexDigit(b: Byte, d: bv32) {
    (d <= 9 && b as bv32 == 48 + d) || (10 <= d <= 15 && b as bv32 == 55 + d)
  }

  /** s writes n in hexadecimal, without leading zeros. */
  ghost predicate IsHexNumeral(s: seq<Byte>, n: bv32) {
    && s != [] && IsHexDigit(s[|s| - 1], n % 16)
    && if n < 16 then |s| == 1 else IsHexNumeral(s[..|s| - 1], n / 16)
  }

  /** The octets of an ASCII text. */
  ghost predicate IsText(s: seq<Byte>, text: string) {
    |s| == |text| && forall i :: 0 <= i < |s| ==> s[i] as int == text[i] as int
  }

  /** What stands for a number the code finds too large. */
  ghost predicate IsInvalidMessage(s: seq<Byte>, n: bv32) {
    exists prefix, digits, suffix ::
      && s == prefix + digits + suffix
      && IsText(prefix, "(Invalid Unicode 0x") && IsHexNumeral(digits, n) && IsText(suffix, ")")
  }

  lemma LastHexDigit(value: bv32)
    ensures value % 16 == value & 0xF && value / 16 == value >> 4
    ensures IsHexDigit(HexDigit(Char(value & 0xF)), value & 0xF)
  {
  }

  lemma NumeralSnoc(front: seq<Byte>, last: Byte, n: bv32)
    requires IsHexDigit(last, n % 16) && if n < 16 then front == [] else IsHexNumeral(front, n / 16)
    ensures IsHexNumeral(front + [last], n)
  {
    assert (front + [last])[..|front|] == front;
  }

  lemma {:induction false} HexDigitsAreNumeral(value: bv32)
    ensures IsHexNumeral(HexDigits(value), value)
    decreases value
  {
    LastHexDigit(value);
    var last := HexDigit(Char(value & 0xF));
    if value <= 0xF {
      NumeralSnoc([], last, value);
    } else {
      HexDigitsAreNumeral(value >> 4);
      NumeralSnoc(HexDigits(value >> 4), last, value);
    }
  }

  lemma {:induction false} HexDigitsAscii(value: bv32)
    ensures Ascii(HexDigits(value))
    decreases value
  {
    if value > 0xF {
      HexDigitsAscii(value >> 4);
    }
  }

  lemma InvalidMessage(c: CodePoint)
    ensures IsInvalidMessage(INVALID_PREFIX + HexDigits(c) + INVALID_SUFFIX, c)
  {
    HexDigitsAreNumeral(c);
    MessageText();
    AssembleMessage(INVALID_PREFIX, HexDigits(c), INVALID_SUFFIX, c);
  }

  lemma WordTexts()
    ensures IsText(INVALID, "(Invalid") && IsText(HEX_MARK, " 0x") && IsText(INVALID_SUFFIX, ")")
  {
  }

  lemma UnicodeText()
    ensures IsText(UNICODE, " Unicode")
  {
  }

  lemma MessageText()
    ensures IsText(INVALID_PREFIX, "(Invalid Unicode 0x") && IsText(INVALID_SUFFIX, ")")
  {
    WordTexts();
    UnicodeText();
    assert "(Invalid" + " Unicode" + " 0x" == "(Invalid Unicode 0x";
  }

  lemma AsciiParts(a: seq<Byte>, b: seq<Byte>, c: seq<Byte>)
    requires Ascii(a) && Ascii(b) && Ascii(c)
    ensures Ascii(a + b + c)
  {
  }

  lemma AssembleMessage(prefix: seq<Byte>, digits: seq<Byte>, suffix: seq<Byte>, n: bv32)
    requires IsText(prefix, "(Invalid Unicode 0x") && IsHexNumeral(digits, n) && IsText(suffix, ")")
    ensures IsInvalidMessage(prefix + digits + suffix, n)
  {
  }

  /** The text for a number too wide to encode does not spell that number but is valid. */
  lemma InvalidText(c: CodePoint)
    requires !IsScalar(c)
    ensures !Spells(INVALID_PREFIX + HexDigits(c) + INVALID_SUFFIX, [c])
    ensures exists cs :: Spells(INVALID_PREFIX + HexDigits(c) + INVALID_SUFFIX, cs)
  {
    assert !IsScalar([c][0]);
    HexDigitsAscii(c);
    AsciiParts(INVALID, UNICODE, HEX_MARK);
    AsciiParts(INVALID_PREFIX, HexDigits(c), INVALID_SUFFIX);
    AsciiIsValid(INVALID_PREFIX + HexDigits(c) + INVALID_SUFFIX);
    ValidIffDecodes(INVALID_PREFIX + HexDigits(c) + INVALID_SUFFIX);
  }

  // The branches that fill the buffer, one method each.

  method FillTwo(codePoint: CodePoint) returns (str: seq<Byte>)
    requires MAX_CODE_POINT_1 < codePoint <= MAX_CODE_POINT_2
    ensures str == Encode(codePoint) + [0]
  {
    ChoppedIsEncoding(codePoint);
    var b1, rest := ChopLowBits(codePoint);
    str := [Char(0xC0 | rest), Char(0x80 | b1), 0];
  }

  method FillThree(codePoint: CodePoint) returns (str: seq<Byte>)
    requires MAX_CODE_POINT_2 < codePoint <= MAX_CODE_POINT_3
    ensures str == Encode(codePoint) + [0]
  {
    ChoppedIsEncoding(codePoint);
    var b2, rest := ChopLowBits(codePoint);
    var b1;
    b1, rest := ChopLowBits(rest);
    str := [Char(0xE0 | rest), Char(0x80 | b1), Char(0x80 | b2), 0];
  }

  method FillFour(codePoint: CodePoint) returns (str: seq<Byte>)
    requires MAX_CODE_POINT_3 < codePoint <= MAX_CODE_POINT_4
    ensures str == Encode(codePoint) + [0]
  {
    ChoppedIsEncoding(codePoint);
    var b3, rest := ChopLowBits(codePoint);
    var b2, b1;
    b2, rest := ChopLowBits(rest);
    b1, rest := ChopLowBits(rest);
    str := [Char(0xF0 | rest), Char(0x80 | b1), Char(0x80 | b2), Char(0x80 | b3), 0];
  }

  /** The code point is encoded, and comes back when decoded, exactly when it is a scalar value other
      than zero; the result is valid UTF-8 exactly when it is not a surrogate nor one of the 21-bit
      numbers beyond the last code point, which the code encodes all the same. */
  method CodePointToUtf8(codePoint: CodePoint) returns (s: seq<Byte>)
    ensures Spells(s, [codePoint]) <==> IsScalar(codePoint) && codePoint != 0
    ensures (exists cs :: Spells(s, cs)) <==> IsScalar(codePoint) || codePoint > 0x1F_FFFF
    ensures codePoint == 0 ==> s == []
    ensures codePoint > 0x1F_FFFF ==> IsInvalidMessage(s, codePoint)
  {
    if codePoint > MAX_CODE_POINT_4 {
      s := INVALID_PREFIX + HexDigits(codePoint) + INVALID_SUFFIX;
      InvalidText(codePoint);
      InvalidMessage(codePoint);
      return;
    }
    var str;
    if codePoint <= MAX_CODE_POINT_1 {
      str := [Char(codePoint), 0];
    } else if codePoint <= MAX_CODE_POINT_2 {
      str := FillTwo(codePoint);
    } else if codePoint <= MAX_CODE_POINT_3 {
      str := FillThree(codePoint);
    } else {
      str := FillFour(codePoint);
    }
    s := UntilNul(str);
    if codePoint != 0 {
      ChoppedIsEncoding(codePoint);
      UntilNulAt(Encode(codePoint));
    }
    EncodingSpells(codePoint, s);
  }
}
