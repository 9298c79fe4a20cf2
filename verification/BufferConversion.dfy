/** Converting one buffer into another a character at a time, and taking it up again later. */
module BufferConversion {

  datatype ConversionResult = ConversionOk | SourceExhausted | TargetExhausted | SourceIllegal

  /** What a converter does at the head of its remaining source.
      `Put`: take `used` units and write `out`, which needs `need` free target units; `illegal` if the
      converter carries on but remembers that the source was illegal.
      `Stop`: report `result`, unless fewer than `need` target units are free. */
  datatype Outcome<B> =
    | Put(used: nat, out: seq<B>, need: nat, illegal: bool)
    | Stop(result: ConversionResult, need: nat)

  datatype Ran<B> = Ran(used: nat, out: seq<B>, result: ConversionResult)

  function Then<B>(a: Ran<B>, b: Ran<B>): Ran<B> {
    Ran(a.used + b.used, a.out + b.out, b.result)
  }

  lemma ThenAssociates<B>(a: Ran<B>, b: Ran<B>, c: Ran<B>)
    ensures Then(Then(a, b), c) == Then(a, Then(b, c))
  {
    assert a.out + b.out + c.out == a.out + (b.out + c.out);
  }

  /** A converter takes at least one unit and no more than there are, needs the room it fills, and
      stops only for the source's sake. */
  ghost predicate Steps<A(!new), B(!new)>(step: seq<A> -> Outcome<B>) {
    forall src :: src != [] ==> StepsAt(step, src)
  }

  ghost predicate StepsAt<A, B>(step: seq<A> -> Outcome<B>, src: seq<A>)
    requires src != []
  {
    var o := step(src);
    if o.Put? then 0 < o.used <= |src| && |o.out| <= o.need
    else o.result == SourceExhausted || o.result == SourceIllegal
  }

  /** The whole conversion of `src` into a target with `room` free units; `result` is what it reports
      if it comes to the end of the source. */
  ghost function Run<A(!new), B(!new)>(step: seq<A> -> Outcome<B>, src: seq<A>, room: nat,
                                       result: ConversionResult): Ran<B>
    requires Steps(step)
    decreases |src|
  {
    if src == [] then Ran(0, [], result) else
    assert StepsAt(step, src);
    var o := step(src);
    if room < o.need then Ran(0, [], TargetExhausted)
    else if o.Stop? then Ran(0, [], o.result)
    else
      Then(Ran(o.used, o.out, result),
           Run(step, src[o.used..], room - |o.out|, if o.illegal then SourceIllegal else result))
  }

  lemma {:induction false} RunBounds<A(!new), B(!new)>(step: seq<A> -> Outcome<B>, src: seq<A>, room: nat,
                                                       result: ConversionResult)
    requires Steps(step)
    ensures var r := Run(step, src, room, result); r.used <= |src| && |r.out| <= room
    decreases |src|
  {
    if src != [] {
      assert StepsAt(step, src);
      var o := step(src);
      if o.need <= room && o.Put? {
        RunBounds(step, src[o.used..], room - |o.out|, if o.illegal then SourceIllegal else result);
      }
    }
  }

  // ----- one call after another -----

  /** A converter that never carries on past an illegal source. */
  ghost predicate Clean<A(!new), B(!new)>(step: seq<A> -> Outcome<B>) {
    forall src :: src != [] && step(src).Put? ==> !step(src).illegal
  }

  /** Call again where the last call stopped, with the next buffer, as long as buffers are exhausted
      and there are more of them. */
  ghost function RunAgain<A(!new), B(!new)>(step: seq<A> -> Outcome<B>, src: seq<A>, rooms: seq<nat>): Ran<B>
    requires Steps(step)
  {
    if rooms == [] then Ran(0, [], TargetExhausted) else
    var first := Run(step, src, rooms[0], ConversionOk);
    if first.result != TargetExhausted then first else
    RunBounds(step, src, rooms[0], ConversionOk);
    Then(first, RunAgain(step, src[first.used..], rooms[1..]))
  }

  lemma RunEmpty<A(!new), B(!new)>(step: seq<A> -> Outcome<B>, room: nat, result: ConversionResult)
    requires Steps(step)
    ensures Run(step, [], room, result) == Ran(0, [], result)
  {
  }

  /** One character, then the rest. */
  lemma RunPut<A(!new), B(!new)>(step: seq<A> -> Outcome<B>, first: seq<A>, tail: seq<A>, room: nat,
                                 out: seq<B>, need: nat)
    requires Steps(step) && first != [] && step(first + tail) == Put(|first|, out, need, false) && need <= room
    ensures |out| <= room
    ensures Run(step, first + tail, room, ConversionOk) ==
      Then(Ran(|first|, out, ConversionOk), Run(step, tail, room - |out|, ConversionOk))
  {
    assert StepsAt(step, first + tail);
    assert (first + tail)[|first|..] == tail;
  }

  /** The same, with a result so far. */
  lemma RunOne<A(!new), B(!new)>(step: seq<A> -> Outcome<B>, src: seq<A>, room: nat, result: ConversionResult)
    requires Steps(step) && src != [] && step(src).need <= room
    ensures step(src).Stop? ==> Run(step, src, room, result) == Ran(0, [], step(src).result)
    ensures step(src).Put? ==>
      && 0 < step(src).used <= |src| && |step(src).out| <= room
      && Run(step, src, room, result) == Then(Ran(step(src).used, step(src).out, result),
           Run(step, src[step(src).used..], room - |step(src).out|,
               if step(src).illegal then SourceIllegal else result))
  {
    assert StepsAt(step, src);
  }

  lemma RunStops<A(!new), B(!new)>(step: seq<A> -> Outcome<B>, src: seq<A>, room: nat, result: ConversionResult)
    requires Steps(step) && src != []
    ensures room < step(src).need ==> Run(step, src, room, result) == Ran(0, [], TargetExhausted)
  {
  }

  lemma Unroll<A(!new), B(!new)>(step: seq<A> -> Outcome<B>, src: seq<A>, room: nat)
    requires Steps(step) && Clean(step)
    ensures src == [] ==> Run(step, src, room, ConversionOk) == Ran(0, [], ConversionOk)
    ensures src != [] && room < step(src).need ==> Run(step, src, room, ConversionOk) == Ran(0, [], TargetExhausted)
    ensures src != [] && step(src).need <= room && step(src).Stop? ==>
      Run(step, src, room, ConversionOk) == Ran(0, [], step(src).result) && step(src).result != TargetExhausted
    ensures src != [] && step(src).need <= room && step(src).Put? ==>
      && 0 < step(src).used <= |src| && |step(src).out| <= room
      && Run(step, src, room, ConversionOk) == Then(Ran(step(src).used, step(src).out, ConversionOk),
           Run(step, src[step(src).used..], room - |step(src).out|, ConversionOk))
  {
    assert src != [] ==> StepsAt(step, src);
  }

  /** A call that ran out of target is a beginning of every call with more room. */
  lemma {:induction false} RunSplits<A(!new), B(!new)>(step: seq<A> -> Outcome<B>, src: seq<A>, room: nat, more: nat)
    requires Steps(step) && Clean(step) && room <= more
    ensures var first := Run(step, src, room, ConversionOk);
      && first.used <= |src| && |first.out| <= room
      && (first.result == TargetExhausted ==>
            Run(step, src, more, ConversionOk)
            == Then(first, Run(step, src[first.used..], more - |first.out|, ConversionOk)))
      && (first.result != TargetExhausted ==> Run(step, src, more, ConversionOk) == first)
    decreases |src|
  {
    hide Run;
    RunBounds(step, src, room, ConversionOk);
    Unroll(step, src, room);
    Unroll(step, src, more);
    if src != [] && step(src).need <= room && step(src).Put? {
      var o, tail := step(src), src[step(src).used..];
      RunSplits(step, tail, room - |o.out|, more - |o.out|);
      var one, next := Ran(o.used, o.out, ConversionOk), Run(step, tail, room - |o.out|, ConversionOk);
      assert tail[next.used..] == src[o.used + next.used..];
      ThenAssociates(one, next, Run(step, tail[next.used..], more - |o.out| - |next.out|, ConversionOk));
    } else {
      assert src[0..] == src;
      assert [] + Run(step, src, more, ConversionOk).out == Run(step, src, more, ConversionOk).out;
    }
  }

  /** Calls with buffers of any sizes come to the same bytes, the same stop and the same verdict as one
      call with a large buffer, once they do not end for want of buffers. */
  lemma {:induction false} AgainIsOnce<A(!new), B(!new)>(step: seq<A> -> Outcome<B>, src: seq<A>,
                                                         rooms: seq<nat>, large: nat)
    requires Steps(step) && Clean(step)
    requires RunAgain(step, src, rooms).result != TargetExhausted
    requires Run(step, src, large, ConversionOk).result != TargetExhausted
    ensures RunAgain(step, src, rooms) == Run(step, src, large, ConversionOk)
    decreases |rooms|
  {
    var first := Run(step, src, rooms[0], ConversionOk);
    if large < rooms[0] {
      RunSplits(step, src, large, rooms[0]);
    } else {
      RunSplits(step, src, rooms[0], large);
      if first.result == TargetExhausted {
        AgainIsOnce(step, src[first.used..], rooms[1..], large - |first.out|);
      }
    }
  }

  /** A buffer with room for any one character makes progress, so enough such buffers finish. */
  lemma {:induction false} AgainFinishes<A(!new), B(!new)>(step: seq<A> -> Outcome<B>, src: seq<A>,
                                                           rooms: seq<nat>, widest: nat)
    requires Steps(step) && Clean(step)
    requires forall s :: s != [] ==> step(s).need <= widest
    requires |src| < |rooms| && forall i :: 0 <= i < |rooms| ==> widest <= rooms[i]
    ensures RunAgain(step, src, rooms).result != TargetExhausted
    decreases |rooms|
  {
    var first := Run(step, src, rooms[0], ConversionOk);
    RunBounds(step, src, rooms[0], ConversionOk);
    if first.result == TargetExhausted {
      assert src != [] && StepsAt(step, src);
      AgainFinishes(step, src[first.used..], rooms[1..], widest);
    }
  }

  // ----- the longest prefix -----

  /** `src` is a sequence of whole characters; this is what they convert to. */
  ghost function Whole<A(!new), B(!new)>(step: seq<A> -> Outcome<B>, src: seq<A>): (r: Ran<B>)
    requires Steps(step)
    decreases |src|
  {
    if src == [] then Ran(0, [], ConversionOk) else
    assert StepsAt(step, src);
    var o := step(src);
    if o.Stop? || o.illegal then Ran(0, [], SourceIllegal)
    else
      var rest := Whole(step, src[o.used..]);
      Ran(0, o.out + rest.out, rest.result)
  }

  ghost predicate IsWhole<A(!new), B(!new)>(step: seq<A> -> Outcome<B>, src: seq<A>)
    requires Steps(step)
  {
    Whole(step, src).result == ConversionOk
  }

  /** What a converter makes of a character does not depend on what follows it, and it needs just the
      room it fills. */
  ghost predicate Local<A(!new), B(!new)>(step: seq<A> -> Outcome<B>) {
    forall src, k: nat :: 0 < k <= |src| ==> LocalAt(step, src, k)
  }

  ghost predicate LocalAt<A, B>(step: seq<A> -> Outcome<B>, src: seq<A>, k: nat)
    requires 0 < k <= |src|
  {
    && (step(src[..k]).Put? ==> step(src) == step(src[..k]))
    && (step(src).Put? ==> step(src).need == |step(src).out| && (step(src).used <= k ==> step(src[..k]) == step(src)))
  }

  /** A converter that never carries on past an illegal source leaves it there, at the first place where it
      has to stop. */
  lemma {:induction false} StopsAtIllegal<A(!new), B(!new)>(step: seq<A> -> Outcome<B>, src: seq<A>, room: nat)
    requires Steps(step) && Clean(step)
    ensures var r := Run(step, src, room, ConversionOk);
      && r.used <= |src| && (r.result == ConversionOk <==> r.used == |src|)
      && (r.used < |src| && r.result != TargetExhausted ==>
            step(src[r.used..]).Stop? && step(src[r.used..]).result == r.result)
    decreases |src|
  {
    RunBounds(step, src, room, ConversionOk);
    if src != [] {
      assert StepsAt(step, src);
      var o := step(src);
      if o.need <= room && o.Put? {
        StopsAtIllegal(step, src[o.used..], room - |o.out|);
        var rest := Run(step, src[o.used..], room - |o.out|, ConversionOk);
        assert src[o.used..][rest.used..] == src[o.used + rest.used..];
      } else {
        assert src[0..] == src;
      }
    }
  }

  lemma StepsOnward<A(!new), B(!new)>(step: seq<A> -> Outcome<B>, src: seq<A>)
    requires Steps(step) && src != []
    ensures StepsAt(step, src)
  {
  }

  /** The target runs out exactly when a character is left for which there is not enough room. */
  lemma {:induction false} RunsOutOfRoom<A(!new), B(!new)>(step: seq<A> -> Outcome<B>, src: seq<A>, room: nat,
                                                           result: ConversionResult)
    requires Steps(step) && result != TargetExhausted
    ensures var r := Run(step, src, room, result);
      && r.used <= |src| && |r.out| <= room
      && (r.result == TargetExhausted <==> r.used < |src| && room - |r.out| < step(src[r.used..]).need)
    decreases |src|
  {
    hide Run, Steps;
    if src == [] {
      RunEmpty(step, room, result);
    } else {
      assert src[0..] == src;
      StepsOnward(step, src);
      RunStops(step, src, room, result);
      var o := step(src);
      if o.need <= room {
        RunOne(step, src, room, result);
        if o.Put? {
          var next := if o.illegal then SourceIllegal else result;
          RunsOutOfRoom(step, src[o.used..], room - |o.out|, next);
          var rest := Run(step, src[o.used..], room - |o.out|, next);
          assert src[o.used..][rest.used..] == src[o.used + rest.used..];
        }
      }
    }
  }

  /** What a call took is whole characters, and what it wrote is exactly what they convert to. */
  lemma {:induction false} TakesWhole<A(!new), B(!new)>(step: seq<A> -> Outcome<B>, src: seq<A>, room: nat)
    requires Steps(step) && Clean(step) && Local(step)
    ensures var r := Run(step, src, room, ConversionOk);
      && r.used <= |src| && IsWhole(step, src[..r.used]) && Whole(step, src[..r.used]).out == r.out
    decreases |src|
  {
    RunBounds(step, src, room, ConversionOk);
    if src != [] {
      assert StepsAt(step, src);
      var o := step(src);
      if o.need <= room && o.Put? {
        TakesWhole(step, src[o.used..], room - |o.out|);
        var r := Run(step, src, room, ConversionOk);
        assert LocalAt(step, src, r.used);
        assert src[..r.used][o.used..] == src[o.used..][..r.used - o.used];
      }
    }
  }

  /** No longer prefix of whole characters would have fitted. */
  lemma {:induction false} TakesLongest<A(!new), B(!new)>(step: seq<A> -> Outcome<B>, src: seq<A>, room: nat, k: nat)
    requires Steps(step) && Clean(step) && Local(step)
    requires k <= |src| && IsWhole(step, src[..k]) && |Whole(step, src[..k]).out| <= room
    ensures k <= Run(step, src, room, ConversionOk).used
    decreases |src|
  {
    if k > 0 {
      assert StepsAt(step, src[..k]) && LocalAt(step, src, k);
      var o := step(src);
      assert src[..k][o.used..] == src[o.used..][..k - o.used];
      TakesLongest(step, src[o.used..], room - |o.out|, k - o.used);
    }
  }

  // ----- a conversion loop -----

  /** A loop that has taken `k` units of `src` and written `out`, and would report `result` at the end
      of the source, is on its way to what `Run` says. */
  ghost predicate OnTheWay<A(!new), B(!new)>(step: seq<A> -> Outcome<B>, src: seq<A>, room: nat,
                                             k: nat, out: seq<B>, result: ConversionResult)
    requires Steps(step)
  {
    && k <= |src| && |out| <= room
    && Run(step, src, room, ConversionOk) == Then(Ran(k, out, result), Run(step, src[k..], room - |out|, result))
  }

  lemma Begin<A(!new), B(!new)>(step: seq<A> -> Outcome<B>, src: seq<A>, room: nat)
    requires Steps(step)
    ensures OnTheWay(step, src, room, 0, [], ConversionOk)
  {
    assert src[0..] == src;
    assert [] + Run(step, src, room, ConversionOk).out == Run(step, src, room, ConversionOk).out;
  }

  lemma Advance<A(!new), B(!new)>(step: seq<A> -> Outcome<B>, src: seq<A>, room: nat, k: nat, out: seq<B>,
                                  result: ConversionResult, o: Outcome<B>)
    requires Steps(step) && OnTheWay(step, src, room, k, out, result) && k < |src|
    requires step(src[k..]) == o && o.Put? && o.need <= room - |out|
    ensures OnTheWay(step, src, room, k + o.used, out + o.out, if o.illegal then SourceIllegal else result)
  {
    assert StepsAt(step, src[k..]);
    assert src[k..][o.used..] == src[k + o.used..];
    var result' := if o.illegal then SourceIllegal else result;
    ThenAssociates(Ran(k, out, result), Ran(o.used, o.out, result),
                   Run(step, src[k + o.used..], room - |out| - |o.out|, result'));
  }

  /** The loop is over: its state is the outcome of the whole run. */
  lemma Halt<A(!new), B(!new)>(step: seq<A> -> Outcome<B>, src: seq<A>, room: nat, k: nat, out: seq<B>,
                               result: ConversionResult, final: ConversionResult)
    requires Steps(step) && OnTheWay(step, src, room, k, out, result)
    requires if k == |src| then final == result
             else var o := step(src[k..]);
                  if room - |out| < o.need then final == TargetExhausted else o.Stop? && final == o.result
    ensures Run(step, src, room, ConversionOk) == Ran(k, out, final)
  {
    assert out + [] == out;
  }
}
