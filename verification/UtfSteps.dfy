/** What each converter does at the head of its source, and what whole conversions come to. */
module UtfSteps {
  import opened BufferConversion
  import opened Unicode

  // ----- the steps -----

  /** The next character of the source and the units it takes, or why there is none. */
  datatype Head = Chr(used: nat, ch: Utf32) | Stuck(result: ConversionResult)

  /** A legal sequence never stands for a surrogate or for a value above 10FFFF, so from UTF-8 strict
      and lenient conversion are the same. */
  function Head8(src: seq<Utf8>): (h: Head)
    requires src != []
    ensures h.Chr? ==> Scalar(h.ch)
  {
    var n := Trailing(src[0]) + 1;
    if n > |src| then Stuck(SourceExhausted)
    else if !IsLegal(src[..n]) then Stuck(SourceIllegal)
    else Chr(n, Value(src[..n]))
  }

  function Combine(high: Utf32, low: Utf32): (c: Utf32)
    requires HighSurrogate(high) && LowSurrogate(low)
    ensures 0x1_0000 <= c <= 0x10FFFF && Encode16(c) == [high, low]
  {
    (high - 0xD800) * 1024 + (low - 0xDC00) + 0x1_0000
  }

  function Head16(src: seq<Utf16>, strict: bool): Head
    requires src != []
  {
    if HighSurrogate(src[0]) then
      if |src| == 1 then Stuck(SourceExhausted)
      else if LowSurrogate(src[1]) then Chr(2, Combine(src[0], src[1]))
      else if strict then Stuck(SourceIllegal)
      else Chr(1, src[0])
    else if strict && LowSurrogate(src[0]) then Stuck(SourceIllegal)
    else Chr(1, src[0])
  }

  function Step8to16(src: seq<Utf8>, strict: bool): Outcome<Utf16> {
    if src == [] then Stop(SourceExhausted, 0) else
    match Head8(src)
    case Stuck(result) => Stop(result, 0)
    case Chr(n, ch) => Put(n, Encode16(ch), |Encode16(ch)|, false)
  }

  function Step8to32(src: seq<Utf8>, strict: bool): Outcome<Utf32> {
    if src == [] then Stop(SourceExhausted, 0) else
    match Head8(src)
    case Stuck(result) => Stop(result, 0)
    case Chr(n, ch) => Put(n, [ch], 1, false)
  }

  function Step16to8(src: seq<Utf16>, strict: bool): Outcome<Utf8> {
    if src == [] then Stop(SourceExhausted, 0) else
    match Head16(src, strict)
    case Stuck(result) => Stop(result, 0)
    case Chr(n, ch) =>
      var bytes := Encode8(if ch <= 0x10FFFF then ch else REPLACEMENT);
      Put(n, bytes, |bytes|, false)
  }

  function Step16to32(src: seq<Utf16>, strict: bool): Outcome<Utf32> {
    if src == [] then Stop(SourceExhausted, 0) else
    match Head16(src, strict)
    case Stuck(result) => Stop(result, 0)
    case Chr(n, ch) => Put(n, [ch], 1, false)
  }

  /** A character above 10FFFF does not stop this converter even when it is strict: it writes nothing
      and carries on. */
  function Step32to16(src: seq<Utf32>, strict: bool): Outcome<Utf16> {
    if src == [] then Stop(SourceExhausted, 0) else
    var ch := src[0];
    if HighSurrogate(ch) || LowSurrogate(ch) then
      if strict then Stop(SourceIllegal, 1) else Put(1, [REPLACEMENT], 1, false)
    else if ch > 0x10FFFF then
      if strict then Put(1, [], 1, true) else Put(1, [REPLACEMENT], 1, false)
    else Put(1, Encode16(ch), |Encode16(ch)|, false)
  }

  /** Nor does it stop this one, strict or not: it writes a replacement character and carries on. */
  function Step32to8(src: seq<Utf32>, strict: bool): Outcome<Utf8> {
    if src == [] then Stop(SourceExhausted, 0) else
    var ch := src[0];
    if strict && (HighSurrogate(ch) || LowSurrogate(ch)) then Stop(SourceIllegal, 0)
    else
      var bytes := Encode8(if ch <= 0x10FFFF then ch else REPLACEMENT);
      Put(1, bytes, |bytes|, ch > 0x10FFFF)
  }

  function From8To16(strict: bool): seq<Utf8> -> Outcome<Utf16> { src => Step8to16(src, strict) }
  function From8To32(strict: bool): seq<Utf8> -> Outcome<Utf32> { src => Step8to32(src, strict) }
  function From16To8(strict: bool): seq<Utf16> -> Outcome<Utf8> { src => Step16to8(src, strict) }
  function From16To32(strict: bool): seq<Utf16> -> Outcome<Utf32> { src => Step16to32(src, strict) }
  function From32To16(strict: bool): seq<Utf32> -> Outcome<Utf16> { src => Step32to16(src, strict) }
  function From32To8(strict: bool): seq<Utf32> -> Outcome<Utf8> { src => Step32to8(src, strict) }

  lemma AllStep(strict: bool)
    ensures Steps(From8To16(strict)) && Steps(From8To32(strict))
    ensures Steps(From16To8(strict)) && Steps(From16To32(strict))
    ensures Steps(From32To16(strict)) && Steps(From32To8(strict))
  {
  }

  /** Converters from UTF-8 (and, when strict, from UTF-16) stop at the first illegal character, treat
      each character by itself, and need room for no more than one character at a time: so what a call
      takes is the longest prefix of whole characters that fits (`TakesWhole`, `TakesLongest`), and
      calls one after another come to the same as one (`AgainIsOnce`, `AgainFinishes`). */
  lemma From8Resumable(strict: bool)
    ensures Clean(From8To16(strict)) && Local(From8To16(strict)) && Clean(From8To32(strict)) && Local(From8To32(strict))
    ensures forall s :: s != [] ==> From8To16(strict)(s).need <= 2 && From8To32(strict)(s).need <= 1
  {
    forall src: seq<Utf8>, k: nat | 0 < k <= |src|
      ensures LocalAt(From8To16(strict), src, k) && LocalAt(From8To32(strict), src, k)
    {
      assert Trailing(src[0]) + 1 <= k ==> src[..k][..Trailing(src[0]) + 1] == src[..Trailing(src[0]) + 1];
    }
  }

  lemma From16Resumable()
    ensures Clean(From16To8(true)) && Local(From16To8(true)) && Clean(From16To32(true)) && Local(From16To32(true))
    ensures forall s :: s != [] ==> From16To8(true)(s).need <= 4 && From16To32(true)(s).need <= 1
  {
    hide LocalAt;
    forall src: seq<Utf16>, k: nat | 0 < k <= |src|
      ensures LocalAt(From16To8(true), src, k) && LocalAt(From16To32(true), src, k)
    {
      LocalAt16(src, k);
    }
  }

  lemma LocalAt16(src: seq<Utf16>, k: nat)
    requires 0 < k <= |src|
    ensures LocalAt(From16To8(true), src, k) && LocalAt(From16To32(true), src, k)
  {
    assert src[..k][0] == src[0] && (k > 1 ==> src[..k][1] == src[1]);
    hide Encode8;
  }

  // ----- which verdict a call returns -----

  /** The source ends within a character: its first byte calls for more bytes than there are. */
  predicate CutOff8(rest: seq<Utf8>) {
    rest != [] && |rest| <= Trailing(rest[0])
  }

  predicate Illegal8(rest: seq<Utf8>) {
    rest != [] && |rest| > Trailing(rest[0]) && !IsLegal(rest[..Trailing(rest[0]) + 1])
  }

  /** The code's table: as many bytes follow as the first has one-bits behind the first of them at its top. */
  lemma TrailingIsOnes(b: Utf8)
    ensures b < 0xC0 ==> Trailing(b) == 0
    ensures 0xC0 <= b < 0xFC ==> 0x100 - Power2(7 - Trailing(b)) <= b < 0x100 - Power2(6 - Trailing(b))
    ensures 0xC0 <= b < 0xFC ==> 1 <= Trailing(b) <= 4
    ensures 0xFC <= b ==> Trailing(b) == 5
  {
    assert Power2(2) == 4 && Power2(3) == 8 && Power2(4) == 16 && Power2(5) == 32 && Power2(6) == 64;
  }

  function Power2(n: int): nat {
    if n <= 0 then 1 else 2 * Power2(n - 1)
  }

  /** How a call of a converter from UTF-8 ends, by what it leaves of its source. */
  ghost predicate Ends8<B>(src: seq<Utf8>, r: Ran<B>) {
    r.used <= |src| &&
    var rest := src[r.used..];
    && (r.result == ConversionOk <==> rest == [])
    && (r.result == SourceExhausted <==> CutOff8(rest))
    && (r.result == SourceIllegal <==> Illegal8(rest))
  }

  /** Whatever the target: the source is exhausted exactly if it is cut off in a character, illegal exactly if it
      is left at a sequence that is not legal; and if the target runs out, it is left at a character that does
      not fit. */
  lemma Verdict8(src: seq<Utf8>, room: nat, strict: bool)
    ensures Steps(From8To16(strict)) && Steps(From8To32(strict))
    ensures Ends8(src, Run(From8To16(strict), src, room, ConversionOk))
    ensures Ends8(src, Run(From8To32(strict), src, room, ConversionOk))
    ensures var r := Run(From8To16(strict), src, room, ConversionOk);
      r.result == TargetExhausted ==>
        room - |r.out| < |Encode16(Value(src[r.used..][..Trailing(src[r.used]) + 1]))|
    ensures var r := Run(From8To32(strict), src, room, ConversionOk); r.result == TargetExhausted ==> room == |r.out|
  {
    AllStep(strict);
    From8Resumable(strict);
    hide Steps, Clean, Local, Run, Encode16, Value;
    StopsAtIllegal(From8To16(strict), src, room);
    RunsOutOfRoom(From8To16(strict), src, room, ConversionOk);
    StopsAtIllegal(From8To32(strict), src, room);
    RunsOutOfRoom(From8To32(strict), src, room, ConversionOk);
  }

  predicate CutOff16(rest: seq<Utf16>) {
    |rest| == 1 && HighSurrogate(rest[0])
  }

  /** A surrogate by itself. */
  predicate Unpaired(rest: seq<Utf16>) {
    rest != [] && (LowSurrogate(rest[0]) || (|rest| > 1 && HighSurrogate(rest[0]) && !LowSurrogate(rest[1])))
  }

  ghost predicate Ends16<B>(src: seq<Utf16>, r: Ran<B>, strict: bool) {
    r.used <= |src| &&
    var rest := src[r.used..];
    && (r.result == ConversionOk <==> rest == [])
    && (r.result == SourceExhausted <==> CutOff16(rest))
    && (r.result == SourceIllegal <==> strict && Unpaired(rest))
  }

  /** From UTF-16: exhausted exactly at a last high surrogate, and illegal, when strict, exactly at a surrogate by
      itself. */
  lemma Verdict16(src: seq<Utf16>, room: nat, strict: bool)
    ensures Steps(From16To8(strict)) && Steps(From16To32(strict))
    ensures Ends16(src, Run(From16To8(strict), src, room, ConversionOk), strict)
    ensures Ends16(src, Run(From16To32(strict), src, room, ConversionOk), strict)
  {
    AllStep(strict);
    hide Steps, Run, Encode8;
    StopsAtIllegal(From16To8(strict), src, room);
    RunsOutOfRoom(From16To8(strict), src, room, ConversionOk);
    StopsAtIllegal(From16To32(strict), src, room);
    RunsOutOfRoom(From16To32(strict), src, room, ConversionOk);
  }

  /** A source that is cut off, and one that is illegal. */
  lemma VerdictExamples(strict: bool)
    ensures Steps(From8To16(strict)) && Steps(From16To8(true))
    ensures Run(From8To16(strict), [0xC3], 2, ConversionOk) == Ran(0, [], SourceExhausted)
    ensures Run(From8To16(strict), [0x80], 2, ConversionOk) == Ran(0, [], SourceIllegal)
    ensures Run(From16To8(true), [0xD800], 4, ConversionOk) == Ran(0, [], SourceExhausted)
    ensures Run(From16To8(true), [0xDC00], 4, ConversionOk) == Ran(0, [], SourceIllegal)
  {
    AllStep(strict);
    AllStep(true);
    assert [0x80 as Utf8][..1] == [0x80];
  }

  // ----- round trips -----

  ghost predicate Scalars(cs: seq<Utf32>) {
    forall i :: 0 <= i < |cs| ==> Scalar(cs[i])
  }

  lemma HeadOfEncoded8(c: Utf32, rest: seq<Utf8>)
    requires Scalar(c)
    ensures Head8(Encode8(c) + rest) == Chr(|Encode8(c)|, c)
  {
    EncodeThenValue(c);
    assert (Encode8(c) + rest)[..|Encode8(c)|] == Encode8(c);
  }

  lemma HeadOfEncoded16(c: Utf32, rest: seq<Utf16>, strict: bool)
    requires Scalar(c)
    ensures Head16(Encode16(c) + rest, strict) == Chr(|Encode16(c)|, c)
  {
  }

  lemma StepsOnEncoded8(c: Utf32, rest: seq<Utf8>, strict: bool)
    requires Scalar(c)
    ensures Encode8(c) != []
    ensures From8To16(strict)(Encode8(c) + rest) == Put(|Encode8(c)|, Encode16(c), |Encode16(c)|, false)
    ensures From8To32(strict)(Encode8(c) + rest) == Put(|Encode8(c)|, [c], 1, false)
  {
    HeadOfEncoded8(c, rest);
    hide Head8;
  }

  lemma StepsOnEncoded16(c: Utf32, rest: seq<Utf16>, strict: bool)
    requires Scalar(c)
    ensures Encode16(c) != []
    ensures From16To8(strict)(Encode16(c) + rest) == Put(|Encode16(c)|, Encode8(c), |Encode8(c)|, false)
    ensures From16To32(strict)(Encode16(c) + rest) == Put(|Encode16(c)|, [c], 1, false)
  {
    HeadOfEncoded16(c, rest, strict);
    hide Head16;
  }

  lemma StepsOnScalar(c: Utf32, rest: seq<Utf32>, strict: bool)
    requires Scalar(c)
    ensures From32To8(strict)([c] + rest) == Put(1, Encode8(c), |Encode8(c)|, false)
    ensures From32To16(strict)([c] + rest) == Put(1, Encode16(c), |Encode16(c)|, false)
  {
  }

  /** Reading UTF-8 text into UTF-16... */
  lemma {:induction false} Read8To16(cs: seq<Utf32>, strict: bool, room: nat)
    requires Scalars(cs) && |EncodeAll16(cs)| <= room
    ensures Steps(From8To16(strict))
    ensures Run(From8To16(strict), EncodeAll8(cs), room, ConversionOk)
      == Ran(|EncodeAll8(cs)|, EncodeAll16(cs), ConversionOk)
  {
    AllStep(strict);
    hide Steps, Run, From8To16, From8To32, Encode8, Encode16;
    if cs == [] {
      RunEmpty(From8To16(strict), room, ConversionOk);
    } else {
      Read8To16(cs[1..], strict, room - |Encode16(cs[0])|);
      StepsOnEncoded8(cs[0], EncodeAll8(cs[1..]), strict);
      RunPut(From8To16(strict), Encode8(cs[0]), EncodeAll8(cs[1..]), room, Encode16(cs[0]), |Encode16(cs[0])|);
    }
  }

  /** ... and into UTF-32. */
  lemma {:induction false} Read8To32(cs: seq<Utf32>, strict: bool, room: nat)
    requires Scalars(cs) && |cs| <= room
    ensures Steps(From8To32(strict))
    ensures Run(From8To32(strict), EncodeAll8(cs), room, ConversionOk) == Ran(|EncodeAll8(cs)|, cs, ConversionOk)
  {
    AllStep(strict);
    hide Steps, Run, From8To16, From8To32, Encode8, Encode16;
    if cs == [] {
      RunEmpty(From8To32(strict), room, ConversionOk);
    } else {
      Read8To32(cs[1..], strict, room - |[cs[0]]|);
      StepsOnEncoded8(cs[0], EncodeAll8(cs[1..]), strict);
      assert cs == [cs[0]] + cs[1..];
      RunPut(From8To32(strict), Encode8(cs[0]), EncodeAll8(cs[1..]), room, [cs[0]], 1);
    }
  }

  /** Reading UTF-16 text into UTF-8... */
  lemma {:induction false} Read16To8(cs: seq<Utf32>, strict: bool, room: nat)
    requires Scalars(cs) && |EncodeAll8(cs)| <= room
    ensures Steps(From16To8(strict))
    ensures Run(From16To8(strict), EncodeAll16(cs), room, ConversionOk)
      == Ran(|EncodeAll16(cs)|, EncodeAll8(cs), ConversionOk)
  {
    AllStep(strict);
    hide Steps, Run, From16To8, From16To32, Encode8, Encode16;
    if cs == [] {
      RunEmpty(From16To8(strict), room, ConversionOk);
    } else {
      Read16To8(cs[1..], strict, room - |Encode8(cs[0])|);
      StepsOnEncoded16(cs[0], EncodeAll16(cs[1..]), strict);
      RunPut(From16To8(strict), Encode16(cs[0]), EncodeAll16(cs[1..]), room, Encode8(cs[0]), |Encode8(cs[0])|);
    }
  }

  /** ... and into UTF-32. */
  lemma {:induction false} Read16To32(cs: seq<Utf32>, strict: bool, room: nat)
    requires Scalars(cs) && |cs| <= room
    ensures Steps(From16To32(strict))
    ensures Run(From16To32(strict), EncodeAll16(cs), room, ConversionOk) == Ran(|EncodeAll16(cs)|, cs, ConversionOk)
  {
    AllStep(strict);
    hide Steps, Run, From16To8, From16To32, Encode8, Encode16;
    if cs == [] {
      RunEmpty(From16To32(strict), room, ConversionOk);
    } else {
      Read16To32(cs[1..], strict, room - |[cs[0]]|);
      StepsOnEncoded16(cs[0], EncodeAll16(cs[1..]), strict);
      assert cs == [cs[0]] + cs[1..];
      RunPut(From16To32(strict), Encode16(cs[0]), EncodeAll16(cs[1..]), room, [cs[0]], 1);
    }
  }

  /** Writing text as UTF-8... */
  lemma {:induction false} Write8(cs: seq<Utf32>, strict: bool, room: nat)
    requires Scalars(cs) && |EncodeAll8(cs)| <= room
    ensures Steps(From32To8(strict))
    ensures Run(From32To8(strict), cs, room, ConversionOk) == Ran(|cs|, EncodeAll8(cs), ConversionOk)
  {
    AllStep(strict);
    hide Steps, Run, From32To16, From32To8, Encode8, Encode16;
    if cs == [] {
      RunEmpty(From32To8(strict), room, ConversionOk);
    } else {
      Write8(cs[1..], strict, room - |Encode8(cs[0])|);
      StepsOnScalar(cs[0], cs[1..], strict);
      assert cs == [cs[0]] + cs[1..];
      RunPut(From32To8(strict), [cs[0]], cs[1..], room, Encode8(cs[0]), |Encode8(cs[0])|);
    }
  }

  /** ... and as UTF-16. */
  lemma {:induction false} Write16(cs: seq<Utf32>, strict: bool, room: nat)
    requires Scalars(cs) && |EncodeAll16(cs)| <= room
    ensures Steps(From32To16(strict))
    ensures Run(From32To16(strict), cs, room, ConversionOk) == Ran(|cs|, EncodeAll16(cs), ConversionOk)
  {
    AllStep(strict);
    hide Steps, Run, From32To16, From32To8, Encode8, Encode16;
    if cs == [] {
      RunEmpty(From32To16(strict), room, ConversionOk);
    } else {
      Write16(cs[1..], strict, room - |Encode16(cs[0])|);
      StepsOnScalar(cs[0], cs[1..], strict);
      assert cs == [cs[0]] + cs[1..];
      RunPut(From32To16(strict), [cs[0]], cs[1..], room, Encode16(cs[0]), |Encode16(cs[0])|);
    }
  }

  /** Strict or not, every sequence of scalar values survives the trip through UTF-8 and the trip
      through UTF-16, whatever the buffers, so long as they have the room. */
  lemma RoundTrips(cs: seq<Utf32>, strict: bool, room: nat)
    requires Scalars(cs) && |EncodeAll8(cs)| <= room && |EncodeAll16(cs)| <= room && |cs| <= room
    ensures Steps(From32To8(strict)) && Steps(From8To32(strict))
    ensures Steps(From32To16(strict)) && Steps(From16To32(strict))
    ensures var utf8 := Run(From32To8(strict), cs, room, ConversionOk).out;
      Run(From8To32(strict), utf8, room, ConversionOk) == Ran(|utf8|, cs, ConversionOk)
    ensures var utf16 := Run(From32To16(strict), cs, room, ConversionOk).out;
      Run(From16To32(strict), utf16, room, ConversionOk) == Ran(|utf16|, cs, ConversionOk)
  {
    Write8(cs, strict, room);
    Read8To32(cs, strict, room);
    Write16(cs, strict, room);
    Read16To32(cs, strict, room);
  }

  // ----- lenient conversion from UTF-16 -----

  /** Values whose UTF-16 stands for just them: no high surrogate has a low one behind it, or ends the text. */
  ghost predicate Separate(cs: seq<Utf32>)
    ensures Separate(cs) ==> forall i :: 0 <= i < |cs| ==> cs[i] <= 0x10FFFF
  {
    && (forall i :: 0 <= i < |cs| ==> cs[i] <= 0x10FFFF)
    && forall i :: 0 <= i < |cs| && HighSurrogate(cs[i]) ==> i + 1 < |cs| && !LowSurrogate(cs[i + 1])
  }

  lemma SeparateHead(cs: seq<Utf32>)
    requires Separate(cs) && cs != []
    ensures Separate(cs[1..])
    ensures var c, rest := cs[0], EncodeAll16(cs[1..]);
      && EncodeAll16(cs) == Encode16(c) + rest && Head16(Encode16(c) + rest, false) == Chr(|Encode16(c)|, c)
  {
    var c := cs[0];
    assert forall i :: 0 <= i < |cs| - 1 ==> cs[1..][i] == cs[i + 1];
    if HighSurrogate(c) {
      assert EncodeAll16(cs[1..]) == Encode16(cs[1]) + EncodeAll16(cs[1..][1..]);
    }
  }

  lemma LenientSteps(cs: seq<Utf32>)
    requires Separate(cs) && cs != []
    ensures cs[0] <= 0x10FFFF && Encode16(cs[0]) != [] && EncodeAll16(cs) == Encode16(cs[0]) + EncodeAll16(cs[1..])
    ensures From16To8(false)(EncodeAll16(cs)) == Put(|Encode16(cs[0])|, Encode8(cs[0]), |Encode8(cs[0])|, false)
    ensures From16To32(false)(EncodeAll16(cs)) == Put(|Encode16(cs[0])|, [cs[0]], 1, false)
  {
    SeparateHead(cs);
    hide Head16, Encode8, EncodeAll16, Separate;
  }

  /** Lenient conversion writes surrogates that are not paired like other values, to UTF-8... */
  lemma {:induction false} Lenient16To8(cs: seq<Utf32>, room: nat)
    requires Separate(cs) && |EncodeAll8(cs)| <= room
    ensures Steps(From16To8(false))
    ensures Run(From16To8(false), EncodeAll16(cs), room, ConversionOk)
      == Ran(|EncodeAll16(cs)|, EncodeAll8(cs), ConversionOk)
  {
    AllStep(false);
    hide Steps, Run, Encode8, Encode16, EncodeAll16, Separate, From16To8, From16To32, Head16;
    if cs == [] {
      RunEmpty(From16To8(false), room, ConversionOk);
      NoScalars();
    } else {
      SeparateHead(cs);
      LenientSteps(cs);
      Lenient16To8(cs[1..], room - |Encode8(cs[0])|);
      RunPut(From16To8(false), Encode16(cs[0]), EncodeAll16(cs[1..]), room, Encode8(cs[0]), |Encode8(cs[0])|);
    }
  }

  /** ... and to UTF-32. */
  lemma {:induction false} Lenient16To32(cs: seq<Utf32>, room: nat)
    requires Separate(cs) && |cs| <= room
    ensures Steps(From16To32(false))
    ensures Run(From16To32(false), EncodeAll16(cs), room, ConversionOk) == Ran(|EncodeAll16(cs)|, cs, ConversionOk)
  {
    AllStep(false);
    hide Steps, Run, Encode8, Encode16, EncodeAll16, Separate, From16To8, From16To32, Head16;
    if cs == [] {
      RunEmpty(From16To32(false), room, ConversionOk);
      NoScalars();
    } else {
      SeparateHead(cs);
      LenientSteps(cs);
      Lenient16To32(cs[1..], room - 1);
      assert cs == [cs[0]] + cs[1..];
      RunPut(From16To32(false), Encode16(cs[0]), EncodeAll16(cs[1..]), room, [cs[0]], 1);
    }
  }

  // ----- whole characters -----

  /** Strict UTF-16 source that is whole characters is the encoding of scalar values, and converts to just
      these values. */
  lemma {:induction false} WholeIsText16(src: seq<Utf16>) returns (cs: seq<Utf32>)
    requires Steps(From16To8(true)) && Steps(From16To32(true))
    requires IsWhole(From16To8(true), src) || IsWhole(From16To32(true), src)
    ensures Scalars(cs) && src == EncodeAll16(cs)
    ensures IsWhole(From16To8(true), src) && Whole(From16To8(true), src).out == EncodeAll8(cs)
    ensures IsWhole(From16To32(true), src) && Whole(From16To32(true), src).out == cs
    decreases |src|
  {
    hide Steps, Encode8, Encode16, From16To8, From16To32;
    if src == [] {
      cs := [];
    } else {
      var n, ch := HeadIsScalar16(src);
      var rest := WholeIsText16(src[n..]);
      cs := [ch] + rest;
      assert cs[1..] == rest && src == src[..n] + src[n..];
    }
  }

  lemma HeadIsScalar16(src: seq<Utf16>) returns (n: nat, ch: Utf32)
    requires src != [] && (From16To8(true)(src).Put? || From16To32(true)(src).Put?)
    ensures 0 < n <= |src| && Scalar(ch) && src[..n] == Encode16(ch)
    ensures From16To8(true)(src) == Put(n, Encode8(ch), |Encode8(ch)|, false)
    ensures From16To32(true)(src) == Put(n, [ch], 1, false)
  {
    n, ch := Head16(src, true).used, Head16(src, true).ch;
  }

  /** So a call of a strict converter from UTF-16 takes the longest prefix that is text and fits, whatever
      its result, and writes that text. */
  lemma TakesText16(src: seq<Utf16>, room: nat)
    ensures Steps(From16To8(true)) && Steps(From16To32(true))
    ensures var r := Run(From16To8(true), src, room, ConversionOk);
      r.used <= |src| && exists cs :: Scalars(cs) && src[..r.used] == EncodeAll16(cs) && r.out == EncodeAll8(cs)
    ensures var r := Run(From16To32(true), src, room, ConversionOk);
      r.used <= |src| && exists cs :: Scalars(cs) && src[..r.used] == EncodeAll16(cs) && r.out == cs
    ensures forall k, cs :: 0 <= k <= |src| && Scalars(cs) && src[..k] == EncodeAll16(cs) ==>
      && (|EncodeAll8(cs)| <= room ==> k <= Run(From16To8(true), src, room, ConversionOk).used)
      && (|cs| <= room ==> k <= Run(From16To32(true), src, room, ConversionOk).used)
  {
    AllStep(true);
    From16Resumable();
    hide Steps, Clean, Local, Run, Whole, From16To8, From16To32, Encode8, Encode16, EncodeAll8, EncodeAll16;
    TakesWhole(From16To8(true), src, room);
    var _ := WholeIsText16(src[..Run(From16To8(true), src, room, ConversionOk).used]);
    TakesWhole(From16To32(true), src, room);
    var _ := WholeIsText16(src[..Run(From16To32(true), src, room, ConversionOk).used]);
    forall k: nat, cs | k <= |src| && Scalars(cs) && src[..k] == EncodeAll16(cs)
      ensures |EncodeAll8(cs)| <= room ==> k <= Run(From16To8(true), src, room, ConversionOk).used
      ensures |cs| <= room ==> k <= Run(From16To32(true), src, room, ConversionOk).used
    {
      TextIsWhole16(cs);
      if |EncodeAll8(cs)| <= room {
        TakesLongest(From16To8(true), src, room, k);
      }
      if |cs| <= room {
        TakesLongest(From16To32(true), src, room, k);
      }
    }
  }

  lemma {:induction false} TextIsWhole16(cs: seq<Utf32>)
    requires Scalars(cs)
    ensures Steps(From16To8(true)) && Steps(From16To32(true))
    ensures IsWhole(From16To8(true), EncodeAll16(cs)) && Whole(From16To8(true), EncodeAll16(cs)).out == EncodeAll8(cs)
    ensures IsWhole(From16To32(true), EncodeAll16(cs)) && Whole(From16To32(true), EncodeAll16(cs)).out == cs
  {
    AllStep(true);
    hide Steps, From16To8, From16To32, Encode8, Encode16;
    if cs != [] {
      TextIsWhole16(cs[1..]);
      StepsOnEncoded16(cs[0], EncodeAll16(cs[1..]), true);
      var src, rest := EncodeAll16(cs), EncodeAll16(cs[1..]);
      assert src[|Encode16(cs[0])|..] == rest && cs == [cs[0]] + cs[1..];
    }
  }

  lemma {:induction false} TextIsWhole8(cs: seq<Utf32>, strict: bool)
    requires Scalars(cs)
    ensures Steps(From8To16(strict)) && Steps(From8To32(strict))
    ensures IsWhole(From8To16(strict), EncodeAll8(cs))
    ensures Whole(From8To16(strict), EncodeAll8(cs)).out == EncodeAll16(cs)
    ensures IsWhole(From8To32(strict), EncodeAll8(cs)) && Whole(From8To32(strict), EncodeAll8(cs)).out == cs
  {
    AllStep(strict);
    hide Steps, From8To16, From8To32, Encode8, Encode16;
    if cs != [] {
      TextIsWhole8(cs[1..], strict);
      StepsOnEncoded8(cs[0], EncodeAll8(cs[1..]), strict);
      var src, rest := EncodeAll8(cs), EncodeAll8(cs[1..]);
      assert src[|Encode8(cs[0])|..] == rest && cs == [cs[0]] + cs[1..];
    }
  }

  /** UTF-8 source that is whole characters stands for scalar values, to which it converts. */
  lemma {:induction false} WholeIsScalars8(src: seq<Utf8>, strict: bool) returns (cs: seq<Utf32>)
    requires Steps(From8To16(strict)) && Steps(From8To32(strict))
    requires IsWhole(From8To16(strict), src) || IsWhole(From8To32(strict), src)
    ensures Scalars(cs)
    ensures IsWhole(From8To16(strict), src) && Whole(From8To16(strict), src).out == EncodeAll16(cs)
    ensures IsWhole(From8To32(strict), src) && Whole(From8To32(strict), src).out == cs
    decreases |src|
  {
    hide Steps, Encode16;
    if src == [] {
      cs := [];
    } else {
      assert Head8(src).Chr?;
      StepsOnHead8(src, strict);
      hide Head8, From8To16, From8To32;
      var n, ch := Head8(src).used, Head8(src).ch;
      var rest := WholeIsScalars8(src[n..], strict);
      cs := [ch] + rest;
      assert cs[1..] == rest;
    }
  }

  /** A call of a converter from UTF-8 takes at least the longest prefix that is text and fits, whatever its
      result, and writes scalar values. */
  lemma TakesText8(src: seq<Utf8>, room: nat, strict: bool)
    ensures Steps(From8To16(strict)) && Steps(From8To32(strict))
    ensures exists cs :: Scalars(cs) && Run(From8To16(strict), src, room, ConversionOk).out == EncodeAll16(cs)
    ensures Scalars(Run(From8To32(strict), src, room, ConversionOk).out)
    ensures forall k, cs :: 0 <= k <= |src| && Scalars(cs) && src[..k] == EncodeAll8(cs) ==>
      && (|EncodeAll16(cs)| <= room ==> k <= Run(From8To16(strict), src, room, ConversionOk).used)
      && (|cs| <= room ==> k <= Run(From8To32(strict), src, room, ConversionOk).used)
  {
    AllStep(strict);
    From8Resumable(strict);
    hide Steps, Clean, Local, Run, Whole, From8To16, From8To32, Encode8, Encode16, EncodeAll8, EncodeAll16;
    TakesWhole(From8To16(strict), src, room);
    var _ := WholeIsScalars8(src[..Run(From8To16(strict), src, room, ConversionOk).used], strict);
    TakesWhole(From8To32(strict), src, room);
    var _ := WholeIsScalars8(src[..Run(From8To32(strict), src, room, ConversionOk).used], strict);
    forall k: nat, cs | k <= |src| && Scalars(cs) && src[..k] == EncodeAll8(cs)
      ensures |EncodeAll16(cs)| <= room ==> k <= Run(From8To16(strict), src, room, ConversionOk).used
      ensures |cs| <= room ==> k <= Run(From8To32(strict), src, room, ConversionOk).used
    {
      TextIsWhole8(cs, strict);
      if |EncodeAll16(cs)| <= room {
        TakesLongest(From8To16(strict), src, room, k);
      }
      if |cs| <= room {
        TakesLongest(From8To32(strict), src, room, k);
      }
    }
  }

  // ----- every source, well formed or not -----

  /** Going through UTF-32 takes as much of any UTF-8 source, stops for the same reason and writes the
      same UTF-16 as going straight; and UTF-16 text is never longer than the UTF-8 it comes from. */
  lemma {:induction false} StraightOrThroughUtf32(src: seq<Utf8>, strict: bool, room16: nat, room32: nat)
    requires |src| <= room16 && |src| <= room32
    ensures Steps(From8To16(strict)) && Steps(From8To32(strict))
    ensures var r := Run(From8To32(strict), src, room32, ConversionOk);
      && Scalars(r.out) && |EncodeAll16(r.out)| <= r.used && r.result != TargetExhausted
      && Run(From8To16(strict), src, room16, ConversionOk) == Ran(r.used, EncodeAll16(r.out), r.result)
    decreases |src|
  {
    AllStep(strict);
    hide Steps, Head8, Encode16, From8To16, From8To32, Run, EncodeAll16, Scalars;
    if src == [] || Head8(src).Stuck? {
      StuckOrEmpty(src, strict, room16, room32);
      NoScalars();
    } else {
      StepsOnHead8(src, strict);
      var n, ch := Head8(src).used, Head8(src).ch;
      var units := Encode16(ch);
      StraightOrThroughUtf32(src[n..], strict, room16 - |units|, room32 - 1);
      assert src == src[..n] + src[n..];
      RunPut(From8To16(strict), src[..n], src[n..], room16, units, |units|);
      RunPut(From8To32(strict), src[..n], src[n..], room32, [ch], 1);
      OneMoreScalar(ch, Run(From8To32(strict), src[n..], room32 - 1, ConversionOk).out);
    }
  }

  lemma NoScalars()
    ensures Scalars([]) && EncodeAll16([]) == []
  {
  }

  lemma OneMoreScalar(c: Utf32, cs: seq<Utf32>)
    requires Scalar(c) && Scalars(cs)
    ensures Scalars([c] + cs) && EncodeAll16([c] + cs) == Encode16(c) + EncodeAll16(cs)
  {
    assert ([c] + cs)[1..] == cs;
  }

  lemma StuckOrEmpty(src: seq<Utf8>, strict: bool, room16: nat, room32: nat)
    requires src == [] || Head8(src).Stuck?
    ensures Steps(From8To16(strict)) && Steps(From8To32(strict))
    ensures var result := if src == [] then ConversionOk else Head8(src).result;
      && result != TargetExhausted
      && Run(From8To16(strict), src, room16, ConversionOk) == Ran(0, [], result)
      && Run(From8To32(strict), src, room32, ConversionOk) == Ran(0, [], result)
  {
    AllStep(strict);
  }

  lemma StepsOnHead8(src: seq<Utf8>, strict: bool)
    requires src != [] && Head8(src).Chr?
    ensures var n, ch := Head8(src).used, Head8(src).ch;
      && Scalar(ch) && 0 < n <= |src| && |Encode16(ch)| <= n
      && From8To16(strict)(src) == Put(n, Encode16(ch), |Encode16(ch)|, false)
      && From8To32(strict)(src) == Put(n, [ch], 1, false)
  {
    GatherUpTo4(src[..Head8(src).used]);
  }
}
