/** UTF-8, UTF-16 and UTF-32 code units: the encodings as the standards define them, and the steps
    the converters take at the head of their source. Shifts and masks of unsigned values are written
    as division and remainder by powers of two. */
module Unicode {
  type Utf8 = x: int | 0 <= x < 0x100
  type Utf16 = x: int | 0 <= x < 0x1_0000
  type Utf32 = x: int | 0 <= x < 0x1_0000_0000

  const REPLACEMENT: Utf32 := 0xFFFD

  predicate HighSurrogate(u: Utf32) { 0xD800 <= u <= 0xDBFF }

  predicate LowSurrogate(u: Utf32) { 0xDC00 <= u <= 0xDFFF }

  predicate Scalar(c: Utf32) { c <= 0x10FFFF && !HighSurrogate(c) && !LowSurrogate(c) }

  // ----- the standards -----

  /** RFC 3629, section 3: the table of octet sequences. */
  function Encode8(c: Utf32): seq<Utf8>
    requires c <= 0x10FFFF
  {
    if c < 0x80 then [c]
    else if c < 0x800 then [0xC0 + c / 64, 0x80 + c % 64]
    else if c < 0x1_0000 then [0xE0 + c / 64 / 64, 0x80 + c / 64 % 64, 0x80 + c % 64]
    else [0xF0 + c / 64 / 64 / 64, 0x80 + c / 64 / 64 % 64, 0x80 + c / 64 % 64, 0x80 + c % 64]
  }

  predicate Tail(b: Utf8) { 0x80 <= b <= 0xBF }

  /** RFC 3629, section 4: the octet sequences that are UTF-8. */
  predicate WellFormed8(s: seq<Utf8>) {
    match |s|
    case 1 => s[0] <= 0x7F
    case 2 => 0xC2 <= s[0] <= 0xDF && Tail(s[1])
    case 3 =>
      && Tail(s[2])
      && (|| (s[0] == 0xE0 && 0xA0 <= s[1] <= 0xBF)
          || (0xE1 <= s[0] <= 0xEC && Tail(s[1]))
          || (s[0] == 0xED && 0x80 <= s[1] <= 0x9F)
          || (0xEE <= s[0] <= 0xEF && Tail(s[1])))
    case 4 =>
      && Tail(s[2]) && Tail(s[3])
      && (|| (s[0] == 0xF0 && 0x90 <= s[1] <= 0xBF)
          || (0xF1 <= s[0] <= 0xF3 && Tail(s[1]))
          || (s[0] == 0xF4 && 0x80 <= s[1] <= 0x8F))
    case _ => false
  }

  /** RFC 2781, section 2.1. */
  function Encode16(c: Utf32): seq<Utf16>
    requires c <= 0x10FFFF
  {
    if c < 0x1_0000 then [c] else [0xD800 + (c - 0x1_0000) / 1024, 0xDC00 + (c - 0x1_0000) % 1024]
  }

  function EncodeAll8(cs: seq<Utf32>): seq<Utf8>
    requires forall i :: 0 <= i < |cs| ==> cs[i] <= 0x10FFFF
  {
    if cs == [] then [] else Encode8(cs[0]) + EncodeAll8(cs[1..])
  }

  function EncodeAll16(cs: seq<Utf32>): seq<Utf16>
    requires forall i :: 0 <= i < |cs| ==> cs[i] <= 0x10FFFF
  {
    if cs == [] then [] else Encode16(cs[0]) + EncodeAll16(cs[1..])
  }

  // ----- the converters' tables and tests -----

  /** The table `trailingBytesForUTF8`. */
  function Trailing(b: Utf8): nat {
    if b < 0xC0 then 0 else if b < 0xE0 then 1 else if b < 0xF0 then 2
    else if b < 0xF8 then 3 else if b < 0xFC then 4 else 5
  }

  /** The table `offsetsFromUTF8`. */
  function Offset(extra: nat): Utf32
    requires extra < 6
  {
    match extra
    case 0 => 0x0000_0000
    case 1 => 0x0000_3080
    case 2 => 0x000E_2080
    case 3 => 0x03C8_2080
    case 4 => 0xFA08_2080
    case 5 => 0x8208_2080
  }

  /** The inner switch on the first byte, for the second. */
  predicate SecondByteOk(first: Utf8, a: Utf8) {
    && a <= 0xBF
    && match first
       case 0xE0 => a >= 0xA0
       case 0xED => a <= 0x9F
       case 0xF0 => a >= 0x90
       case 0xF4 => a <= 0x8F
       case _ => a >= 0x80
  }

  /** `isLegalUTF8`, on a sequence of the length its first byte calls for. */
  predicate IsLegal(s: seq<Utf8>) {
    && 1 <= |s| <= 4
    && (|s| >= 4 ==> 0x80 <= s[3] <= 0xBF)
    && (|s| >= 3 ==> 0x80 <= s[2] <= 0xBF)
    && (|s| >= 2 ==> SecondByteOk(s[0], s[1]))
    && !(0x80 <= s[0] < 0xC2)
    && s[0] <= 0xF4
  }

  /** The bytes run together six bits at a time. */
  function Gather(s: seq<Utf8>): nat {
    if s == [] then 0 else Gather(s[..|s| - 1]) * 64 + s[|s| - 1]
  }

  /** The character a legal sequence stands for. */
  function Value(s: seq<Utf8>): (c: Utf32)
    requires IsLegal(s) && |s| == Trailing(s[0]) + 1
    ensures Scalar(c)
  {
    GatherUpTo4(s);
    Gather(s) - Offset(|s| - 1)
  }

  function Six(high: int, low: int): int {
    high * 64 + low
  }

  lemma GatherUpTo4(s: seq<Utf8>)
    requires 1 <= |s| <= 4
    ensures Gather(s) == match |s|
                         case 1 => s[0]
                         case 2 => Six(s[0], s[1])
                         case 3 => Six(Six(s[0], s[1]), s[2])
                         case _ => Six(Six(Six(s[0], s[1]), s[2]), s[3])
  {
    if |s| == 1 {
      assert s == [s[0]];
    } else {
      GatherUpTo4(s[..|s| - 1]);
    }
  }

  /** `isLegalUTF8` accepts every well-formed sequence, and what else it accepts is exactly the
      sequences led by ED or F4 whose second byte is below 80. */
  lemma LegalExactly(s: seq<Utf8>)
    requires s != [] && |s| == Trailing(s[0]) + 1
    ensures WellFormed8(s) ==> IsLegal(s)
    ensures IsLegal(s) ==> (WellFormed8(s) <==> !((s[0] == 0xED || s[0] == 0xF4) && s[1] < 0x80))
  {
  }

  /** A sequence it accepts that is not UTF-8. */
  lemma LegalButIllFormed()
    ensures IsLegal([0xED, 0x00, 0x80]) && !WellFormed8([0xED, 0x00, 0x80])
    ensures Value([0xED, 0x00, 0x80]) == 0xB000
  {
    GatherUpTo4([0xED, 0x00, 0x80]);
  }

  /** The table of section 3 and the grammar of section 4 describe the same sequences, and decoding
      undoes encoding. */
  lemma EncodeThenValue(c: Utf32)
    requires Scalar(c)
    ensures WellFormed8(Encode8(c)) && |Encode8(c)| == Trailing(Encode8(c)[0]) + 1
    ensures IsLegal(Encode8(c)) && Value(Encode8(c)) == c
  {
    GatherUpTo4(Encode8(c));
  }

  lemma DivideSix(high: nat, low: nat)
    requires low < 64
    ensures Six(high, low) / 64 == high && Six(high, low) % 64 == low
  {
  }

  lemma ValueThenEncode2(s: seq<Utf8>)
    requires |s| == 2 && WellFormed8(s)
    ensures |s| == Trailing(s[0]) + 1 && IsLegal(s) && Encode8(Value(s)) == s
  {
    GatherUpTo4(s);
    hide Gather;
    DivideSix(s[0] - 0xC0, s[1] - 0x80);
  }

  lemma ValueThenEncode3(s: seq<Utf8>)
    requires |s| == 3 && WellFormed8(s)
    ensures |s| == Trailing(s[0]) + 1 && IsLegal(s) && Encode8(Value(s)) == s
  {
    GatherUpTo4(s);
    hide Gather;
    var high := Six(s[0] - 0xE0, s[1] - 0x80);
    DivideSix(high, s[2] - 0x80);
    DivideSix(s[0] - 0xE0, s[1] - 0x80);
    assert Value(s) == Six(high, s[2] - 0x80);
  }

  lemma ValueThenEncode4(s: seq<Utf8>)
    requires |s| == 4 && WellFormed8(s)
    ensures |s| == Trailing(s[0]) + 1 && IsLegal(s) && Encode8(Value(s)) == s
  {
    GatherUpTo4(s);
    hide Gather;
    var top := Six(s[0] - 0xF0, s[1] - 0x80);
    var high := Six(top, s[2] - 0x80);
    DivideSix(high, s[3] - 0x80);
    DivideSix(top, s[2] - 0x80);
    DivideSix(s[0] - 0xF0, s[1] - 0x80);
    assert Value(s) == Six(high, s[3] - 0x80);
  }

  /** Encoding undoes decoding. */
  lemma ValueThenEncode(s: seq<Utf8>)
    requires WellFormed8(s)
    ensures |s| == Trailing(s[0]) + 1 && IsLegal(s) && Encode8(Value(s)) == s
  {
    if |s| == 1 {
      GatherUpTo4(s);
    } else if |s| == 2 {
      ValueThenEncode2(s);
    } else if |s| == 3 {
      ValueThenEncode3(s);
    } else {
      ValueThenEncode4(s);
    }
  }

  /** The bits of a character in its bytes, as the table of section 3 of RFC 3629 has them. */
  lemma BitsOf8(c: Utf32)
    requires c <= 0x10FFFF
    ensures |Encode8(c)| == (if c <= 0x7F then 1 else if c <= 0x7FF then 2 else if c <= 0xFFFF then 3 else 4)
    ensures forall i :: 0 < i < |Encode8(c)| ==> 0x80 <= Encode8(c)[i] <= 0xBF
    ensures c == BitsIn8(Encode8(c))
  {
    assert forall i :: 0 < i < |Encode8(c)| ==> Tail(Encode8(c)[i]);
  }

  /** The free bits of one to four bytes, from the first byte down. */
  function BitsIn8(s: seq<int>): int {
    match |s|
    case 1 => s[0]
    case 2 => 0x40 * (s[0] - 0xC0) + (s[1] - 0x80)
    case 3 => 0x1000 * (s[0] - 0xE0) + 0x40 * (s[1] - 0x80) + (s[2] - 0x80)
    case 4 => 0x4_0000 * (s[0] - 0xF0) + 0x1000 * (s[1] - 0x80) + 0x40 * (s[2] - 0x80) + (s[3] - 0x80)
    case _ => -1
  }

  /** What a legal sequence stands for, by its bytes. */
  lemma BitsOfLegal(s: seq<Utf8>)
    requires s != [] && IsLegal(s) && |s| == Trailing(s[0]) + 1
    ensures Value(s) == BitsIn8(s)
  {
    GatherUpTo4(s);
  }

  /** The bits of a character in its units, as section 2.1 of RFC 2781 has them. */
  lemma BitsOf16(c: Utf32)
    requires c <= 0x10FFFF
    ensures if c <= 0xFFFF then Encode16(c) == [c]
      else
        && |Encode16(c)| == 2 && HighSurrogate(Encode16(c)[0]) && LowSurrogate(Encode16(c)[1])
        && c - 0x1_0000 == 0x400 * (Encode16(c)[0] as int - 0xD800) + (Encode16(c)[1] as int - 0xDC00)
  {
  }

  /** Examples of section 7 of RFC 3629 and section 5 of RFC 2781. */
  lemma EncodedExamples()
    ensures Encode8(0x41) == [0x41] && Encode8(0x391) == [0xCE, 0x91] && Encode8(0x2262) == [0xE2, 0x89, 0xA2]
    ensures Encode8(0xD55C) == [0xED, 0x95, 0x9C] && Encode8(0x233B4) == [0xF0, 0xA3, 0x8E, 0xB4]
    ensures Encode16(0x12345) == [0xD808, 0xDF45]
  {
  }
}
