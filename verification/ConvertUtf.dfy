/** The six converters between buffers. A source buffer is a sequence read between two positions, a
    target buffer an array written between two positions. */
module ConvertUtf {
  import opened BufferConversion
  import opened Unicode
  import opened UtfSteps

  // ----- writing the target -----

  /** `after` is `before` with `out` written from `start` on. */
  ghost predicate Written<B>(before: seq<B>, after: seq<B>, start: nat, out: seq<B>) {
    && |after| == |before| && start + |out| <= |before|
    && after[start..start + |out|] == out
    && forall i :: 0 <= i < |before| && !(start <= i < start + |out|) ==> after[i] == before[i]
  }

  method Store<B>(target: array<B>, t: nat, x: B, ghost before: seq<B>, ghost start: nat, ghost out: seq<B>)
    requires Written(before, target[..], start, out) && t == start + |out| < target.Length
    modifies target
    ensures Written(before, target[..], start, out + [x])
  {
    ghost var was := target[..];
    target[t] := x;
    assert target[..] == was[t := x];
  }

  /** The surrogate pair of a character above FFFF. */
  method StorePair(target: array<Utf16>, t: nat, ch: Utf32,
                   ghost before: seq<Utf16>, ghost start: nat, ghost out: seq<Utf16>)
    requires 0xFFFF < ch <= 0x10FFFF
    requires Written(before, target[..], start, out) && t == start + |out| && t + 1 < target.Length
    modifies target
    ensures Written(before, target[..], start, out + Encode16(ch))
  {
    hide Written;
    var high: Utf16, low: Utf16 := 0xD800 + (ch - 0x1_0000) / 1024, 0xDC00 + (ch - 0x1_0000) % 1024;
    Store(target, t, high, before, start, out);
    Store(target, t + 1, low, before, start, out + [high]);
    assert out + [high] + [low] == out + Encode16(ch);
  }

  /** `c` shifted right by six bits, `k` times. */
  function Shift(c: nat, k: nat): nat {
    if k == 0 then c else Shift(c, k - 1) / 64
  }

  lemma BytesOfShifts(c: Utf32, j: nat)
    requires c <= 0x10FFFF && j < |Encode8(c)|
    ensures var n := |Encode8(c)|;
      Encode8(c)[j] == if j == 0 then FirstByteMark(n) + Shift(c, n - 1) else 0x80 + Shift(c, n - 1 - j) % 64
  {
    assert Shift(c, 1) == c / 64 && Shift(c, 2) == c / 64 / 64 && Shift(c, 3) == c / 64 / 64 / 64;
  }

  /** The switch on `bytesToWrite`, an unrolled loop that writes from the last byte to the first. */
  method StoreBytes(target: array<Utf8>, t: nat, bytesToWrite: nat, c: Utf32,
                    ghost before: seq<Utf8>, ghost start: nat, ghost out: seq<Utf8>)
    requires c <= 0x10FFFF && bytesToWrite == |Encode8(c)|
    requires Written(before, target[..], start, out) && t == start + |out| && t + bytesToWrite <= target.Length
    modifies target
    ensures Written(before, target[..], start, out + Encode8(c))
  {
    ghost var was := target[..];
    var ch, p: nat := c, t + bytesToWrite;
    assert 0 < bytesToWrite;
    hide Encode8;
    while p > t + 1
      invariant t < p <= t + bytesToWrite && ch == Shift(c, t + bytesToWrite - p)
      invariant forall i :: p <= i < t + bytesToWrite ==> target[i] == Encode8(c)[i - t]
      invariant forall i :: 0 <= i < target.Length && !(p <= i < t + bytesToWrite) ==> target[i] == was[i]
    {
      p := p - 1;
      BytesOfShifts(c, p - t);
      target[p] := 0x80 + ch % 64;
      ch := ch / 64;
    }
    BytesOfShifts(c, 0);
    target[t] := FirstByteMark(bytesToWrite) + ch;
    AppendWritten(before, was, target[..], start, out, Encode8(c));
  }

  lemma AppendWritten<B>(before: seq<B>, was: seq<B>, now: seq<B>, start: nat, out: seq<B>, more: seq<B>)
    requires Written(before, was, start, out) && |now| == |was| && start + |out| + |more| <= |was|
    requires now[start + |out|..start + |out| + |more|] == more
    requires forall i :: 0 <= i < |was| && !(start + |out| <= i < start + |out| + |more|) ==> now[i] == was[i]
    ensures Written(before, now, start, out + more)
  {
    assert now[start..start + |out|] == was[start..start + |out|];
    assert now[start..start + |out + more|] == now[start..start + |out|] + more;
  }

  function FirstByteMark(bytesToWrite: nat): Utf8 {
    match bytesToWrite
    case 2 => 0xC0
    case 3 => 0xE0
    case 4 => 0xF0
    case _ => 0
  }

  /** Reading the bytes of one legal sequence and taking off the offset for its length. */
  method ReadCharacter(source: seq<Utf8>, from: nat, extraBytesToRead: nat) returns (c: Utf32, s: nat)
    requires from + extraBytesToRead < |source| && extraBytesToRead == Trailing(source[from])
    requires IsLegal(source[from..from + extraBytesToRead + 1])
    ensures s == from + extraBytesToRead + 1 && c == Value(source[from..s])
  {
    var ch: nat := source[from];
    s := from + 1;
    while s < from + extraBytesToRead + 1
      invariant from < s <= from + extraBytesToRead + 1
      invariant ch == Gather(source[from..s])
    {
      assert source[from..s + 1][..s - from] == source[from..s];
      ch := ch * 64 + source[s];
      s := s + 1;
    }
    assert Value(source[from..s]) == ch - Offset(extraBytesToRead);
    c := ch - Offset(extraBytesToRead);
  }

  // ----- from UTF-8 -----

  /** The part the two converters from UTF-8 share: the character at `from`, or why there is none. No
      legal sequence stands for a surrogate or for a value above 10FFFF. */
  method NextFrom8(source: seq<Utf8>, from: nat, sourceEnd: nat) returns (result: ConversionResult, ch: Utf32, s: nat)
    requires from < sourceEnd <= |source|
    ensures match Head8(source[from..sourceEnd])
            case Stuck(r) => result == r != ConversionOk && s == from
            case Chr(n, c) => result == ConversionOk && ch == c && s == from + n <= sourceEnd && n > 0
    ensures result == ConversionOk ==> Scalar(ch)
  {
    result, ch, s := ConversionOk, 0, from;
    var extraBytesToRead := Trailing(source[from]);
    if from + extraBytesToRead >= sourceEnd {
      result := SourceExhausted;
      return;
    }
    assert source[from..sourceEnd][..extraBytesToRead + 1] == source[from..from + extraBytesToRead + 1];
    if !IsLegal(source[from..from + extraBytesToRead + 1]) {
      result := SourceIllegal;
      return;
    }
    ch, s := ReadCharacter(source, from, extraBytesToRead);
  }

  /** `ConvertUTF8toUTF16`. */
  method ConvertUtf8ToUtf16(source: seq<Utf8>, sourceStart: nat, sourceEnd: nat,
                target: array<Utf16>, targetStart: nat, targetEnd: nat, strict: bool)
    returns (result: ConversionResult, s: nat, t: nat)
    requires sourceStart <= sourceEnd <= |source| && targetStart <= targetEnd <= target.Length
    modifies target
    ensures Steps(From8To16(strict))
    ensures var r := Run(From8To16(strict), source[sourceStart..sourceEnd], targetEnd - targetStart, ConversionOk);
      && result == r.result && s == sourceStart + r.used && t == targetStart + |r.out|
      && Written(old(target[..]), target[..], targetStart, r.out)
  {
    AllStep(strict);
    hide Steps, Run, Written, OnTheWay, Head8, Head16, Encode8;
    ghost var step, src := From8To16(strict), source[sourceStart..sourceEnd];
    ghost var room, before := targetEnd - targetStart, target[..];
    ghost var out: seq<Utf16> := [];
    Begin(step, src, room);
    NothingWritten(before, targetStart);
    result, s, t := ConversionOk, sourceStart, targetStart;
    while s < sourceEnd
      invariant sourceStart <= s <= sourceEnd && t == targetStart + |out| <= targetEnd && result == ConversionOk
      invariant Written(before, target[..], targetStart, out)
      invariant OnTheWay(step, src, room, s - sourceStart, out, result)
    {
      ghost var k := s - sourceStart;
      assert src[k..] == source[s..sourceEnd];
      var oldSource, ch := s, 0;
      result, ch, s := NextFrom8(source, s, sourceEnd);
      if result != ConversionOk {
        break;
      }
      if t >= targetEnd {
        s, result := oldSource, TargetExhausted;  // back up the source
        break;
      }
      if ch <= 0xFFFF {
        Store(target, t, ch, before, targetStart, out);
        t := t + 1;
      } else {
        if t + 1 >= targetEnd {
          s, result := oldSource, TargetExhausted;
          break;
        }
        StorePair(target, t, ch, before, targetStart, out);
        t := t + 2;
      }
      Advance(step, src, room, k, out, result, Put(s - oldSource, Encode16(ch), |Encode16(ch)|, false));
      out := out + Encode16(ch);
    }
    Halt(step, src, room, s - sourceStart, out, ConversionOk, result);
  }

  /** `ConvertUTF8toUTF32`. */
  method ConvertUtf8ToUtf32(source: seq<Utf8>, sourceStart: nat, sourceEnd: nat,
                target: array<Utf32>, targetStart: nat, targetEnd: nat, strict: bool)
    returns (result: ConversionResult, s: nat, t: nat)
    requires sourceStart <= sourceEnd <= |source| && targetStart <= targetEnd <= target.Length
    modifies target
    ensures Steps(From8To32(strict))
    ensures var r := Run(From8To32(strict), source[sourceStart..sourceEnd], targetEnd - targetStart, ConversionOk);
      && result == r.result && s == sourceStart + r.used && t == targetStart + |r.out|
      && Written(old(target[..]), target[..], targetStart, r.out)
  {
    AllStep(strict);
    hide Steps, Run, Written, OnTheWay, Head8, Head16, Encode8;
    ghost var step, src := From8To32(strict), source[sourceStart..sourceEnd];
    ghost var room, before := targetEnd - targetStart, target[..];
    ghost var out: seq<Utf32> := [];
    Begin(step, src, room);
    NothingWritten(before, targetStart);
    result, s, t := ConversionOk, sourceStart, targetStart;
    while s < sourceEnd
      invariant sourceStart <= s <= sourceEnd && t == targetStart + |out| <= targetEnd && result == ConversionOk
      invariant Written(before, target[..], targetStart, out)
      invariant OnTheWay(step, src, room, s - sourceStart, out, result)
    {
      ghost var k := s - sourceStart;
      assert src[k..] == source[s..sourceEnd];
      var oldSource, ch := s, 0;
      result, ch, s := NextFrom8(source, s, sourceEnd);
      if result != ConversionOk {
        break;
      }
      if t >= targetEnd {
        s, result := oldSource, TargetExhausted;  // back up the source
        break;
      }
      Store(target, t, ch, before, targetStart, out);
      t := t + 1;
      Advance(step, src, room, k, out, result, Put(s - oldSource, [ch], 1, false));
      out := out + [ch];
    }
    Halt(step, src, room, s - sourceStart, out, ConversionOk, result);
  }

  // ----- from UTF-16 -----

  /** The part the two converters from UTF-16 share: join a surrogate pair; when strict, refuse a
      surrogate by itself. */
  method NextFrom16(source: seq<Utf16>, from: nat, sourceEnd: nat, strict: bool)
    returns (result: ConversionResult, ch: Utf32, s: nat)
    requires from < sourceEnd <= |source|
    ensures match Head16(source[from..sourceEnd], strict)
            case Stuck(r) => result == r != ConversionOk && s == from
            case Chr(n, c) => result == ConversionOk && ch == c <= 0x10FFFF && s == from + n <= sourceEnd && n > 0
  {
    result, ch, s := ConversionOk, source[from], from + 1;
    if 0xD800 <= ch <= 0xDBFF {
      if s < sourceEnd {
        var ch2: Utf32 := source[s];
        if 0xDC00 <= ch2 <= 0xDFFF {
          ch := Combine(ch, ch2);
          s := s + 1;
        } else if strict {
          s, result := s - 1, SourceIllegal;
        }
      } else {
        s, result := s - 1, SourceExhausted;
      }
    } else if strict && 0xDC00 <= ch <= 0xDFFF {
      s, result := s - 1, SourceIllegal;
    }
  }

  /** `ConvertUTF16toUTF8`. */
  method ConvertUtf16ToUtf8(source: seq<Utf16>, sourceStart: nat, sourceEnd: nat,
                target: array<Utf8>, targetStart: nat, targetEnd: nat, strict: bool)
    returns (result: ConversionResult, s: nat, t: nat)
    requires sourceStart <= sourceEnd <= |source| && targetStart <= targetEnd <= target.Length
    modifies target
    ensures Steps(From16To8(strict))
    ensures var r := Run(From16To8(strict), source[sourceStart..sourceEnd], targetEnd - targetStart, ConversionOk);
      && result == r.result && s == sourceStart + r.used && t == targetStart + |r.out|
      && Written(old(target[..]), target[..], targetStart, r.out)
  {
    AllStep(strict);
    hide Steps, Run, Written, OnTheWay, Head8, Head16, Encode8;
    ghost var step, src := From16To8(strict), source[sourceStart..sourceEnd];
    ghost var room, before := targetEnd - targetStart, target[..];
    ghost var out: seq<Utf8> := [];
    Begin(step, src, room);
    NothingWritten(before, targetStart);
    result, s, t := ConversionOk, sourceStart, targetStart;
    while s < sourceEnd
      invariant sourceStart <= s <= sourceEnd && t == targetStart + |out| <= targetEnd && result == ConversionOk
      invariant Written(before, target[..], targetStart, out)
      invariant OnTheWay(step, src, room, s - sourceStart, out, result)
    {
      ghost var k := s - sourceStart;
      assert src[k..] == source[s..sourceEnd];
      var oldSource, ch := s, 0;
      result, ch, s := NextFrom16(source, s, sourceEnd, strict);
      if result != ConversionOk {
        break;
      }
      var bytesToWrite := BytesToWrite(ch);
      if t + bytesToWrite > targetEnd {
        s, result := oldSource, TargetExhausted;  // back up the source
        break;
      }
      StoreBytes(target, t, bytesToWrite, ch, before, targetStart, out);
      t := t + bytesToWrite;
      Advance(step, src, room, k, out, result, Put(s - oldSource, Encode8(ch), bytesToWrite, false));
      out := out + Encode8(ch);
    }
    Halt(step, src, room, s - sourceStart, out, ConversionOk, result);
  }

  /** `ConvertUTF16toUTF32`. */
  method ConvertUtf16ToUtf32(source: seq<Utf16>, sourceStart: nat, sourceEnd: nat,
                target: array<Utf32>, targetStart: nat, targetEnd: nat, strict: bool)
    returns (result: ConversionResult, s: nat, t: nat)
    requires sourceStart <= sourceEnd <= |source| && targetStart <= targetEnd <= target.Length
    modifies target
    ensures Steps(From16To32(strict))
    ensures var r := Run(From16To32(strict), source[sourceStart..sourceEnd], targetEnd - targetStart, ConversionOk);
      && result == r.result && s == sourceStart + r.used && t == targetStart + |r.out|
      && Written(old(target[..]), target[..], targetStart, r.out)
  {
    AllStep(strict);
    hide Steps, Run, Written, OnTheWay, Head8, Head16, Encode8;
    ghost var step, src := From16To32(strict), source[sourceStart..sourceEnd];
    ghost var room, before := targetEnd - targetStart, target[..];
    ghost var out: seq<Utf32> := [];
    Begin(step, src, room);
    NothingWritten(before, targetStart);
    result, s, t := ConversionOk, sourceStart, targetStart;
    while s < sourceEnd
      invariant sourceStart <= s <= sourceEnd && t == targetStart + |out| <= targetEnd && result == ConversionOk
      invariant Written(before, target[..], targetStart, out)
      invariant OnTheWay(step, src, room, s - sourceStart, out, result)
    {
      ghost var k := s - sourceStart;
      assert src[k..] == source[s..sourceEnd];
      var oldSource, ch := s, 0;
      result, ch, s := NextFrom16(source, s, sourceEnd, strict);
      if result != ConversionOk {
        break;
      }
      if t >= targetEnd {
        s, result := oldSource, TargetExhausted;  // back up the source
        break;
      }
      Store(target, t, ch, before, targetStart, out);
      t := t + 1;
      Advance(step, src, room, k, out, result, Put(s - oldSource, [ch], 1, false));
      out := out + [ch];
    }
    Halt(step, src, room, s - sourceStart, out, ConversionOk, result);
  }

  // ----- from UTF-32 -----

  /** `ConvertUTF32toUTF16`. */
  method ConvertUtf32ToUtf16(source: seq<Utf32>, sourceStart: nat, sourceEnd: nat,
                target: array<Utf16>, targetStart: nat, targetEnd: nat, strict: bool)
    returns (result: ConversionResult, s: nat, t: nat)
    requires sourceStart <= sourceEnd <= |source| && targetStart <= targetEnd <= target.Length
    modifies target
    ensures Steps(From32To16(strict))
    ensures var r := Run(From32To16(strict), source[sourceStart..sourceEnd], targetEnd - targetStart, ConversionOk);
      && result == r.result && s == sourceStart + r.used && t == targetStart + |r.out|
      && Written(old(target[..]), target[..], targetStart, r.out)
  {
    AllStep(strict);
    hide Steps, Run, Written, OnTheWay, Head8, Head16, Encode8;
    ghost var step, src := From32To16(strict), source[sourceStart..sourceEnd];
    ghost var room, before := targetEnd - targetStart, target[..];
    ghost var soFar: ConversionResult, out: seq<Utf16> := ConversionOk, [];
    Begin(step, src, room);
    NothingWritten(before, targetStart);
    result, s, t := ConversionOk, sourceStart, targetStart;
    while s < sourceEnd
      invariant sourceStart <= s <= sourceEnd && t == targetStart + |out| <= targetEnd && result == soFar
      invariant Written(before, target[..], targetStart, out)
      invariant OnTheWay(step, src, room, s - sourceStart, out, result)
    {
      ghost var k := s - sourceStart;
      assert src[k..] == source[s..sourceEnd] && source[s..sourceEnd][0] == source[s];
      if t >= targetEnd {
        result := TargetExhausted;
        break;
      }
      var ch := source[s];
      s := s + 1;
      if 0xD800 <= ch <= 0xDFFF {
        if strict {
          s, result := s - 1, SourceIllegal;  // return to the illegal value itself
          break;
        }
        Store(target, t, REPLACEMENT, before, targetStart, out);
        t := t + 1;
      } else if ch <= 0xFFFF {
        Store(target, t, ch, before, targetStart, out);
        t := t + 1;
      } else if ch > 0x10FFFF {
        if strict {
          result := SourceIllegal;
          assert out + [] == out;
        } else {
          Store(target, t, REPLACEMENT, before, targetStart, out);
          t := t + 1;
        }
      } else {
        if t + 1 >= targetEnd {
          s, result := s - 1, TargetExhausted;  // back up the source
          break;
        }
        StorePair(target, t, ch, before, targetStart, out);
        t := t + 2;
      }
      Advance(step, src, room, k, out, soFar, step(src[k..]));
      out := out + step(src[k..]).out;
      soFar := result;
    }
    Halt(step, src, room, s - sourceStart, out, soFar, result);
  }

  /** `ConvertUTF32toUTF8`. */
  method ConvertUtf32ToUtf8(source: seq<Utf32>, sourceStart: nat, sourceEnd: nat,
                target: array<Utf8>, targetStart: nat, targetEnd: nat, strict: bool)
    returns (result: ConversionResult, s: nat, t: nat)
    requires sourceStart <= sourceEnd <= |source| && targetStart <= targetEnd <= target.Length
    modifies target
    ensures Steps(From32To8(strict))
    ensures var r := Run(From32To8(strict), source[sourceStart..sourceEnd], targetEnd - targetStart, ConversionOk);
      && result == r.result && s == sourceStart + r.used && t == targetStart + |r.out|
      && Written(old(target[..]), target[..], targetStart, r.out)
  {
    AllStep(strict);
    hide Steps, Run, Written, OnTheWay, Head8, Head16, Encode8;
    ghost var step, src := From32To8(strict), source[sourceStart..sourceEnd];
    ghost var room, before := targetEnd - targetStart, target[..];
    ghost var soFar: ConversionResult, out: seq<Utf8> := ConversionOk, [];
    Begin(step, src, room);
    NothingWritten(before, targetStart);
    result, s, t := ConversionOk, sourceStart, targetStart;
    while s < sourceEnd
      invariant sourceStart <= s <= sourceEnd && t == targetStart + |out| <= targetEnd && result == soFar
      invariant Written(before, target[..], targetStart, out)
      invariant OnTheWay(step, src, room, s - sourceStart, out, result)
    {
      ghost var k := s - sourceStart;
      assert src[k..] == source[s..sourceEnd] && source[s..sourceEnd][0] == source[s];
      var ch := source[s];
      s := s + 1;
      if strict && 0xD800 <= ch <= 0xDFFF {
        s, result := s - 1, SourceIllegal;  // return to the illegal value itself
        break;
      }
      var bytesToWrite := BytesToWrite(ch);
      if ch > 0x10FFFF {
        ch, result := REPLACEMENT, SourceIllegal;
      }
      if t + bytesToWrite > targetEnd {
        s, result := s - 1, TargetExhausted;  // back up the source
        break;
      }
      StoreBytes(target, t, bytesToWrite, ch, before, targetStart, out);
      t := t + bytesToWrite;
      Advance(step, src, room, k, out, soFar, step(src[k..]));
      out := out + Encode8(ch);
      soFar := result;
    }
    Halt(step, src, room, s - sourceStart, out, soFar, result);
  }

  /** How many bytes a character needs; a value above 10FFFF becomes the replacement character. */
  function BytesToWrite(ch: Utf32): (n: nat)
    ensures n == |Encode8(if ch <= 0x10FFFF then ch else REPLACEMENT)|
  {
    if ch < 0x80 then 1 else if ch < 0x800 then 2 else if ch < 0x1_0000 then 3
    else if ch <= 0x10FFFF then 4 else 3
  }

  lemma NothingWritten<B>(before: seq<B>, start: nat)
    requires start <= |before|
    ensures Written(before, before, start, [])
  {
  }
}
