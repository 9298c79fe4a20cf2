/** Where conversions from UTF-32 stop, what they report, and when that is what is promised. */
module Utf32Sources {
  import opened BufferConversion
  import opened Unicode
  import opened UtfSteps

  predicate Surrogate(c: Utf32) { HighSurrogate(c) || LowSurrogate(c) }

  /** `r` stops at the first surrogate of `src`; without one it goes to the end, and a value above
      10FFFF shows in its result alone. */
  ghost predicate StopsAtSurrogate<B>(src: seq<Utf32>, r: Ran<B>, result: ConversionResult) {
    if exists i :: 0 <= i < |src| && Surrogate(src[i]) then
      && r.result == SourceIllegal && r.used < |src| && Surrogate(src[r.used])
      && forall i :: 0 <= i < r.used ==> !Surrogate(src[i])
    else
      r.used == |src| && r.result == LargeIsIllegal(src, result)
  }

  ghost function LargeIsIllegal(src: seq<Utf32>, result: ConversionResult): ConversionResult {
    if exists i :: 0 <= i < |src| && src[i] > 0x10FFFF then SourceIllegal else result
  }

  /** A strict converter from UTF-32 at the head of its source: one value at a time, stopping only at a
      surrogate, and passing a value above 10FFFF as illegal. */
  ghost predicate StrictAt<B>(step: seq<Utf32> -> Outcome<B>, src: seq<Utf32>)
    requires src != []
  {
    var o := step(src);
    && o == step(src[..1])
    && if Surrogate(src[0]) then o.Stop? && o.result == SourceIllegal
       else o.Put? && o.used == 1 && 0 < o.need && |o.out| <= o.need <= (if o.out == [] then 1 else |o.out|)
               && (o.illegal <==> src[0] > 0x10FFFF)
  }

  ghost predicate IsStrict32<B(!new)>(step: seq<Utf32> -> Outcome<B>) {
    forall src :: src != [] ==> StrictAt(step, src)
  }

  lemma StrictHead(src: seq<Utf32>)
    requires src != []
    ensures StrictAt(From32To8(true), src) && StrictAt(From32To16(true), src)
  {
    assert src[..1][0] == src[0];
    assert |Encode8(REPLACEMENT)| == 3;
  }

  lemma Strict32()
    ensures Steps(From32To8(true)) && Steps(From32To16(true))
    ensures IsStrict32(From32To8(true)) && IsStrict32(From32To16(true))
  {
    AllStep(true);
    hide StrictAt;
    forall src: seq<Utf32> | src != [] ensures StrictAt(From32To8(true), src) && StrictAt(From32To16(true), src) {
      StrictHead(src);
    }
  }

  lemma FirstStrict<B(!new)>(step: seq<Utf32> -> Outcome<B>, src: seq<Utf32>)
    requires IsStrict32(step) && src != []
    ensures StrictAt(step, src)
  {
  }

  /** Whatever the target, unless it runs out, a strict conversion stops at the first surrogate. */
  lemma {:induction false} StrictStops<B(!new)>(step: seq<Utf32> -> Outcome<B>, src: seq<Utf32>, room: nat,
                                                result: ConversionResult)
    requires Steps(step) && IsStrict32(step)
    ensures var r := Run(step, src, room, result); r.result != TargetExhausted ==> StopsAtSurrogate(src, r, result)
    decreases |src|
  {
    hide Steps, Run, IsStrict32;
    if src == [] {
      RunEmpty(step, room, result);
    } else {
      FirstStrict(step, src);
      RunStops(step, src, room, result);
      var o := step(src);
      if o.need <= room {
        RunOne(step, src, room, result);
        if o.Put? {
          StrictStops(step, src[1..], room - |o.out|, if o.illegal then SourceIllegal else result);
          FirstOf32(src);
        }
      }
    }
  }

  lemma Strict32To8Stops(src: seq<Utf32>, room: nat, result: ConversionResult)
    ensures Steps(From32To8(true))
    ensures var r := Run(From32To8(true), src, room, result);
      r.result != TargetExhausted ==> StopsAtSurrogate(src, r, result)
  {
    Strict32();
    StrictStops(From32To8(true), src, room, result);
  }

  lemma Strict32To16Stops(src: seq<Utf32>, room: nat, result: ConversionResult)
    ensures Steps(From32To16(true))
    ensures var r := Run(From32To16(true), src, room, result);
      r.result != TargetExhausted ==> StopsAtSurrogate(src, r, result)
  {
    Strict32();
    StrictStops(From32To16(true), src, room, result);
  }

  /** A lenient conversion to UTF-8 never stops before the end, yet reports a value above 10FFFF. */
  lemma {:induction false} Lenient32To8GoesOn(src: seq<Utf32>, room: nat, result: ConversionResult)
    ensures Steps(From32To8(false))
    ensures var r := Run(From32To8(false), src, room, result);
      r.result != TargetExhausted ==> r.used == |src| && r.result == LargeIsIllegal(src, result)
  {
    AllStep(false);
    hide Steps, Run;
    if src == [] {
      RunEmpty(From32To8(false), room, result);
    } else {
      RunStops(From32To8(false), src, room, result);
      var o := From32To8(false)(src);
      if o.need <= room {
        RunOne(From32To8(false), src, room, result);
        Lenient32To8GoesOn(src[1..], room - |o.out|, if o.illegal then SourceIllegal else result);
        FirstOf32(src);
      }
    }
  }

  /** A lenient conversion to UTF-16 never stops before the end either, and reports nothing. */
  lemma {:induction false} Lenient32To16GoesOn(src: seq<Utf32>, room: nat, result: ConversionResult)
    ensures Steps(From32To16(false))
    ensures var r := Run(From32To16(false), src, room, result);
      r.result != TargetExhausted ==> r.used == |src| && r.result == result
  {
    AllStep(false);
    hide Steps, Run;
    if src == [] {
      RunEmpty(From32To16(false), room, result);
    } else {
      RunStops(From32To16(false), src, room, result);
      var o := From32To16(false)(src);
      if o.need <= room {
        RunOne(From32To16(false), src, room, result);
        Lenient32To16GoesOn(src[1..], room - |o.out|, result);
      }
    }
  }

  predicate IllegalValue(c: Utf32) { Surrogate(c) || c > 0x10FFFF }

  /** The promise about an illegal source: the source is left at its first illegal value. */
  ghost predicate LeftAtFirstIllegal<B>(src: seq<Utf32>, r: Ran<B>) {
    r.result == SourceIllegal ==> r.used < |src| && IsFirstIllegal(src, r.used)
  }

  ghost predicate IsFirstIllegal(src: seq<Utf32>, k: nat)
    requires k < |src|
  {
    IllegalValue(src[k]) && forall i :: 0 <= i < k ==> !IllegalValue(src[i])
  }

  /** A value above 10FFFF comes before any surrogate. */
  ghost predicate LargeComesFirst(src: seq<Utf32>) {
    exists i :: 0 <= i < |src| && LargeAt(src, i)
  }

  ghost predicate LargeAt(src: seq<Utf32>, i: nat)
    requires i < |src|
  {
    src[i] > 0x10FFFF && forall j :: 0 <= j < i ==> !Surrogate(src[j])
  }

  lemma StopIsFirstIllegal<B>(src: seq<Utf32>, r: Ran<B>)
    requires StopsAtSurrogate(src, r, ConversionOk)
    ensures LeftAtFirstIllegal(src, r) <==> !LargeComesFirst(src)
  {
    if exists i :: 0 <= i < |src| && Surrogate(src[i]) {
      if LargeComesFirst(src) {
        var i :| 0 <= i < |src| && LargeAt(src, i);
        assert i < r.used && IllegalValue(src[i]);
      } else {
        forall i | 0 <= i < r.used ensures !IllegalValue(src[i]) {
          assert !LargeAt(src, i);
        }
      }
    } else if exists i :: 0 <= i < |src| && src[i] > 0x10FFFF {
      var i :| 0 <= i < |src| && src[i] > 0x10FFFF;
      assert LargeAt(src, i);
    }
  }

  /** Unless the target runs out, a strict conversion from UTF-32 keeps the promise if and only if no value
      above 10FFFF comes before the first surrogate. */
  lemma Strict32LeftAtFirstIllegal(src: seq<Utf32>, room: nat)
    ensures Steps(From32To8(true)) && Steps(From32To16(true))
    ensures var r := Run(From32To8(true), src, room, ConversionOk);
      r.result != TargetExhausted ==> (LeftAtFirstIllegal(src, r) <==> !LargeComesFirst(src))
    ensures var r := Run(From32To16(true), src, room, ConversionOk);
      r.result != TargetExhausted ==> (LeftAtFirstIllegal(src, r) <==> !LargeComesFirst(src))
  {
    Strict32To8Stops(src, room, ConversionOk);
    Strict32To16Stops(src, room, ConversionOk);
    hide Run, Steps, LeftAtFirstIllegal, LargeComesFirst, StopsAtSurrogate;
    if Run(From32To8(true), src, room, ConversionOk).result != TargetExhausted {
      StopIsFirstIllegal(src, Run(From32To8(true), src, room, ConversionOk));
    }
    if Run(From32To16(true), src, room, ConversionOk).result != TargetExhausted {
      StopIsFirstIllegal(src, Run(From32To16(true), src, room, ConversionOk));
    }
  }

  /** A lenient conversion to UTF-8 keeps it if and only if there is no value above 10FFFF at all, and one to
      UTF-16 has nothing to keep. */
  lemma Lenient32LeftAtFirstIllegal(src: seq<Utf32>, room: nat)
    ensures Steps(From32To8(false)) && Steps(From32To16(false))
    ensures var r := Run(From32To8(false), src, room, ConversionOk);
      r.result != TargetExhausted ==>
        (LeftAtFirstIllegal(src, r) <==> forall i :: 0 <= i < |src| ==> src[i] <= 0x10FFFF)
    ensures Run(From32To16(false), src, room, ConversionOk).result != SourceIllegal
  {
    Lenient32To8GoesOn(src, room, ConversionOk);
    Lenient32To16GoesOn(src, room, ConversionOk);
    hide Run, Steps;
  }

  /** How much of the target these values fill. */
  ghost function Filled<B>(step: seq<Utf32> -> Outcome<B>, src: seq<Utf32>): nat {
    if src == [] then 0 else (if step(src).Put? then |step(src).out| else 0) + Filled(step, src[1..])
  }

  /** The target has room for value `i` behind those before it. */
  ghost predicate HasRoomFor<B>(step: seq<Utf32> -> Outcome<B>, src: seq<Utf32>, room: nat, i: nat)
    requires i < |src|
  {
    Filled(step, src[..i]) + step(src[i..]).need <= room
  }

  ghost predicate NoSurrogate(src: seq<Utf32>) {
    forall i :: 0 <= i < |src| ==> !Surrogate(src[i])
  }

  /** A call passes a value if and only if there is no surrogate up to it and it has room. */
  lemma {:induction false} PassesExactly<B(!new)>(step: seq<Utf32> -> Outcome<B>, src: seq<Utf32>, room: nat,
                                                  result: ConversionResult, i: nat)
    requires Steps(step) && IsStrict32(step) && i < |src|
    ensures i < Run(step, src, room, result).used <==> NoSurrogate(src[..i + 1]) && HasRoomFor(step, src, room, i)
    decreases |src|
  {
    hide Steps, Run, IsStrict32;
    FirstStrict(step, src);
    FirstStrict(step, src[i..]);
    RunStops(step, src, room, result);
    var o := step(src);
    if o.need <= room {
      RunOne(step, src, room, result);
    }
    assert src[..i + 1][0] == src[0];
    if i == 0 {
      assert src[0..] == src && src[..0] == [] && src[..1] == [src[0]];
    } else {
      FirstFilled(step, src, i);
      assert src[..i + 1] == [src[0]] + src[1..][..i] && src[i..] == src[1..][i - 1..];
      if o.need <= room && o.Put? {
        PassesExactly(step, src[1..], room - |o.out|, if o.illegal then SourceIllegal else result, i - 1);
      }
    }
  }

  lemma FirstFilled<B(!new)>(step: seq<Utf32> -> Outcome<B>, src: seq<Utf32>, i: nat)
    requires IsStrict32(step) && 0 < i <= |src|
    ensures Filled(step, src[..i]) == (if step(src).Put? then |step(src).out| else 0) + Filled(step, src[1..][..i - 1])
  {
    FirstStrict(step, src);
    FirstStrict(step, src[..i]);
    assert src[..i][..1] == src[..1] && src[..i][1..] == src[1..][..i - 1];
  }

  /** Only the first problem is indicated: an illegal source is left at its first illegal value, and otherwise
      no value passed is illegal. */
  ghost predicate FirstIndicated<B>(src: seq<Utf32>, r: Ran<B>) {
    if r.result == SourceIllegal then r.used < |src| && IsFirstIllegal(src, r.used)
    else forall i :: 0 <= i < r.used && i < |src| ==> !IllegalValue(src[i])
  }

  /** Some value above 10FFFF has no surrogate before it, and the target has room for all up to it. */
  ghost predicate LargeIsReached<B>(step: seq<Utf32> -> Outcome<B>, src: seq<Utf32>, room: nat) {
    exists i :: 0 <= i < |src| && LargeAt(src, i) && HasRoomFor(step, src, room, i)
  }

  lemma ReachedIsPassed<B(!new)>(step: seq<Utf32> -> Outcome<B>, src: seq<Utf32>, room: nat)
    requires Steps(step) && IsStrict32(step)
    ensures var r := Run(step, src, room, ConversionOk);
      && r.used <= |src| && (forall i :: 0 <= i < r.used ==> !Surrogate(src[i]))
      && (LargeIsReached(step, src, room) <==> exists i :: 0 <= i < r.used && src[i] > 0x10FFFF)
  {
    RunBounds(step, src, room, ConversionOk);
    hide Steps, Run, IsStrict32, HasRoomFor;
    var r := Run(step, src, room, ConversionOk);
    forall i | 0 <= i < |src|
      ensures i < r.used ==> !Surrogate(src[i])
      ensures LargeAt(src, i) && HasRoomFor(step, src, room, i) <==> i < r.used && src[i] > 0x10FFFF
    {
      PassesExactly(step, src, room, ConversionOk, i);
      assert src[..i + 1][i] == src[i] && forall j :: 0 <= j < i ==> src[..i + 1][j] == src[j];
    }
  }

  /** Whatever the target, a strict conversion keeps the promise if and only if it does not come to a value
      above 10FFFF. */
  lemma FirstIndicatedExactly<B(!new)>(step: seq<Utf32> -> Outcome<B>, src: seq<Utf32>, room: nat)
    requires Steps(step) && IsStrict32(step)
    ensures FirstIndicated(src, Run(step, src, room, ConversionOk)) <==> !LargeIsReached(step, src, room)
  {
    hide Steps, Run, IsStrict32, LargeIsReached;
    ReachedIsPassed(step, src, room);
    StrictStops(step, src, room, ConversionOk);
  }

  lemma Strict32FirstIndicated(src: seq<Utf32>, room: nat)
    ensures Steps(From32To8(true)) && Steps(From32To16(true))
    ensures FirstIndicated(src, Run(From32To8(true), src, room, ConversionOk))
      <==> !LargeIsReached(From32To8(true), src, room)
    ensures FirstIndicated(src, Run(From32To16(true), src, room, ConversionOk))
      <==> !LargeIsReached(From32To16(true), src, room)
  {
    Strict32();
    FirstIndicatedExactly(From32To8(true), src, room);
    FirstIndicatedExactly(From32To16(true), src, room);
  }

  // ----- what is written -----

  /** Surrogates are written to UTF-8 like other values, to UTF-16 as replacement characters; values above 10FFFF
      as replacement characters, unless a strict conversion to UTF-16 leaves them out. */
  function Shown8(c: Utf32): seq<Utf8> {
    if c <= 0x10FFFF then Encode8(c) else [0xEF, 0xBF, 0xBD]
  }

  function Shown16(c: Utf32, strict: bool): seq<Utf16> {
    if Surrogate(c) then [0xFFFD]
    else if c <= 0x10FFFF then Encode16(c)
    else if strict then [] else [0xFFFD]
  }

  function AllShown8(cs: seq<Utf32>): seq<Utf8> {
    if cs == [] then [] else Shown8(cs[0]) + AllShown8(cs[1..])
  }

  function AllShown16(cs: seq<Utf32>, strict: bool): seq<Utf16> {
    if cs == [] then [] else Shown16(cs[0], strict) + AllShown16(cs[1..], strict)
  }

  lemma Shows(src: seq<Utf32>, strict: bool)
    requires src != []
    ensures var o := From32To8(strict)(src); o.Put? ==> o.used == 1 && o.out == Shown8(src[0])
    ensures var o := From32To16(strict)(src); o.Put? ==> o.used == 1 && o.out == Shown16(src[0], strict)
  {
    assert Encode8(REPLACEMENT) == [0xEF, 0xBF, 0xBD];
  }

  lemma FirstTaken(src: seq<Utf32>, k: nat)
    requires k < |src|
    ensures src[..k + 1][0] == src[0] && src[..k + 1][1..] == src[1..][..k]
  {
  }

  /** Whatever the target and the result, what is written is what is shown of the values taken. */
  lemma {:induction false} Writes32To8(src: seq<Utf32>, strict: bool, room: nat, result: ConversionResult)
    ensures Steps(From32To8(strict))
    ensures var r := Run(From32To8(strict), src, room, result); r.used <= |src| && r.out == AllShown8(src[..r.used])
    decreases |src|
  {
    AllStep(strict);
    hide Steps, Run, Shown8, From32To8, From32To16;
    if src == [] {
      RunEmpty(From32To8(strict), room, result);
    } else {
      Shows(src, strict);
      StepsOnward(From32To8(strict), src);
      RunStops(From32To8(strict), src, room, result);
      var o := From32To8(strict)(src);
      if o.need <= room {
        RunOne(From32To8(strict), src, room, result);
        if o.Put? {
          var next := if o.illegal then SourceIllegal else result;
          Writes32To8(src[1..], strict, room - |o.out|, next);
          FirstTaken(src, Run(From32To8(strict), src[1..], room - |o.out|, next).used);
        }
      }
    }
  }

  lemma {:induction false} Writes32To16(src: seq<Utf32>, strict: bool, room: nat, result: ConversionResult)
    ensures Steps(From32To16(strict))
    ensures var r := Run(From32To16(strict), src, room, result);
      r.used <= |src| && r.out == AllShown16(src[..r.used], strict)
    decreases |src|
  {
    AllStep(strict);
    hide Steps, Run, Shown16, From32To8, From32To16;
    if src == [] {
      RunEmpty(From32To16(strict), room, result);
    } else {
      Shows(src, strict);
      StepsOnward(From32To16(strict), src);
      RunStops(From32To16(strict), src, room, result);
      var o := From32To16(strict)(src);
      if o.need <= room {
        RunOne(From32To16(strict), src, room, result);
        if o.Put? {
          var next := if o.illegal then SourceIllegal else result;
          Writes32To16(src[1..], strict, room - |o.out|, next);
          FirstTaken(src, Run(From32To16(strict), src[1..], room - |o.out|, next).used);
        }
      }
    }
  }

  lemma FirstOf32(src: seq<Utf32>)
    requires src != []
    ensures forall i :: 0 < i < |src| ==> src[i] == src[1..][i - 1]
    ensures forall i :: 0 <= i < |src| - 1 ==> src[1..][i] == src[i + 1]
  {
  }

  /** The source is not left at the illegal value here, but behind it. */
  lemma LargeIsPassed()
    ensures Steps(From32To8(true)) && Steps(From32To16(true)) && Steps(From32To8(false))
    ensures var src: seq<Utf32> := [0x110000];
      && Run(From32To8(true), src, 4, ConversionOk) == Ran(1, Encode8(REPLACEMENT), SourceIllegal)
      && Run(From32To16(true), src, 4, ConversionOk) == Ran(1, [], SourceIllegal)
      && Run(From32To8(false), src, 4, ConversionOk) == Ran(1, Encode8(REPLACEMENT), SourceIllegal)
  {
    AllStep(true);
    AllStep(false);
    var src: seq<Utf32> := [0x110000];
    assert src[1..] == [];
    RunOne(From32To8(true), src, 4, ConversionOk);
    RunOne(From32To16(true), src, 4, ConversionOk);
    RunOne(From32To8(false), src, 4, ConversionOk);
  }

  /** Nor need it be left at the first illegal value where there is a surrogate to stop at. */
  lemma LargeBeforeSurrogate()
    ensures Steps(From32To8(true)) && Steps(From32To16(true))
    ensures var src: seq<Utf32> := [0x110000, 0xD800];
      && LargeComesFirst(src) && IsFirstIllegal(src, 0)
      && Run(From32To8(true), src, 8, ConversionOk) == Ran(1, Encode8(REPLACEMENT), SourceIllegal)
      && Run(From32To16(true), src, 8, ConversionOk) == Ran(1, [], SourceIllegal)
  {
    AllStep(true);
    var src: seq<Utf32> := [0x110000, 0xD800];
    assert LargeAt(src, 0);
    assert src[1..] == [0xD800];
    RunOne(From32To8(true), src, 8, ConversionOk);
    RunOne(From32To16(true), src, 8, ConversionOk);
  }

  /** A value above 10FFFF need not be indicated at all: here the target runs out behind it. */
  lemma LargeThenNoRoom()
    ensures Steps(From32To8(true))
    ensures var src: seq<Utf32> := [0x110000, 0x61];
      && IsFirstIllegal(src, 0) && HasRoomFor(From32To8(true), src, 3, 0)
      && Run(From32To8(true), src, 3, ConversionOk) == Ran(1, Encode8(REPLACEMENT), TargetExhausted)
  {
    AllStep(true);
    var src: seq<Utf32> := [0x110000, 0x61];
    assert src[1..] == [0x61] && src[..0] == [] && src[0..] == src;
    RunOne(From32To8(true), src, 3, ConversionOk);
    RunStops(From32To8(true), src[1..], 0, SourceIllegal);
  }
}
