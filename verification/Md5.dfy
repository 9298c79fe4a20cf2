/** MD5's incremental update: the bit counter in two words and the buffering of partial blocks. The
    transform of one 64-byte block is a parameter. */
module Md5 {
  import opened Addresses

  type Word = x: int | 0 <= x < TWO_32

  const TWO_32: int := 0x1_0000_0000

  /** The transform folded over the full blocks of a message, and the bytes left over. */
  function Absorb<S>(transform: (S, seq<Byte>) -> S, state: S, message: seq<Byte>): (S, seq<Byte>) {
    if |message| < 64 then (state, message)
    else Absorb(transform, transform(state, message[..64]), message[64..])
  }

  /** Absorbing more is absorbing it behind what was left over. */
  lemma {:induction false} AbsorbConcat<S>(transform: (S, seq<Byte>) -> S, state: S, m: seq<Byte>, n: seq<Byte>)
    ensures var (s, rest) := Absorb(transform, state, m);
      Absorb(transform, state, m + n) == Absorb(transform, s, rest + n)
  {
    if |m| >= 64 {
      assert (m + n)[..64] == m[..64] && (m + n)[64..] == m[64..] + n;
      AbsorbConcat(transform, transform(state, m[..64]), m[64..], n);
    }
  }

  lemma WithoutBlock(n: nat)
    requires n >= 64
    ensures n % 64 == (n - 64) % 64
  {
  }

  lemma {:induction false} LeftOver<S>(transform: (S, seq<Byte>) -> S, state: S, m: seq<Byte>)
    ensures var rest := Absorb(transform, state, m).1;
      |rest| == |m| % 64 && rest == m[|m| - |rest|..]
  {
    if |m| >= 64 {
      var tail, next := m[64..], transform(state, m[..64]);
      LeftOver(transform, next, tail);
      assert Absorb(transform, state, m) == Absorb(transform, next, tail);
      WithoutBlock(|m|);
      hide Absorb;
    }
  }

  /** The whole blocks of a message, cut by position. */
  function Blocks(m: seq<Byte>): (blocks: seq<seq<Byte>>)
    ensures |blocks| == |m| / 64
    ensures forall i :: 0 <= i < |blocks| ==> 64 * i + 64 <= |m| && blocks[i] == m[64 * i..64 * i + 64]
  {
    seq(|m| / 64, i requires 0 <= i < |m| / 64 => BlockAt(m, i))
  }

  function BlockAt(m: seq<Byte>, i: nat): (block: seq<Byte>)
    requires i < |m| / 64
    ensures 64 * i + 64 <= |m| && block == m[64 * i..64 * i + 64]
  {
    m[64 * i..64 * i + 64]
  }

  /** The transform applied to each block in turn. */
  function Fold<S>(transform: (S, seq<Byte>) -> S, state: S, blocks: seq<seq<Byte>>): S {
    if blocks == [] then state
    else transform(Fold(transform, state, blocks[..|blocks| - 1]), blocks[|blocks| - 1])
  }

  /** The states it goes through, one for each block. */
  lemma {:induction false} FoldStates<S>(transform: (S, seq<Byte>) -> S, state: S, blocks: seq<seq<Byte>>)
    returns (states: seq<S>)
    ensures |states| == |blocks| + 1 && states[0] == state && states[|blocks|] == Fold(transform, state, blocks)
    ensures forall i :: 0 <= i < |blocks| ==> states[i + 1] == transform(states[i], blocks[i])
  {
    if blocks == [] {
      states := [state];
    } else {
      var before := FoldStates(transform, state, blocks[..|blocks| - 1]);
      states := before + [Fold(transform, state, blocks)];
    }
  }

  lemma {:induction false} FoldFromFirst<S>(transform: (S, seq<Byte>) -> S, state: S, blocks: seq<seq<Byte>>)
    requires blocks != []
    ensures Fold(transform, state, blocks) == Fold(transform, transform(state, blocks[0]), blocks[1..])
  {
    var n := |blocks| - 1;
    if n == 0 {
      assert Fold(transform, state, blocks[..0]) == state;
    } else {
      FoldFromFirst(transform, state, blocks[..n]);
      assert blocks[..n][1..] == blocks[1..][..n - 1];
    }
  }

  lemma BlocksBehindFirst(m: seq<Byte>)
    requires |m| >= 64
    ensures Blocks(m) == [m[..64]] + Blocks(m[64..])
  {
    var blocks, rest := Blocks(m), Blocks(m[64..]);
    assert |m| / 64 == 1 + (|m| - 64) / 64;
    forall i | 0 <= i < |rest| ensures blocks[i + 1] == rest[i] {
      assert rest[i] == m[64..][64 * i..64 * i + 64] == m[64 * (i + 1)..64 * (i + 1) + 64];
    }
    assert blocks[0] == m[..64];
  }

  /** Absorbing a message is the fold of the transform over its blocks, first to last. */
  lemma {:induction false} AbsorbFolds<S>(transform: (S, seq<Byte>) -> S, state: S, m: seq<Byte>)
    ensures Absorb(transform, state, m).0 == Fold(transform, state, Blocks(m))
  {
    if |m| < 64 {
      assert Blocks(m) == [];
    } else {
      AbsorbFolds(transform, transform(state, m[..64]), m[64..]);
      BlocksBehindFirst(m);
      var blocks := Blocks(m);
      FoldFromFirst(transform, state, blocks);
      assert blocks[1..] == Blocks(m[64..]) && blocks[0] == m[..64];
    }
  }

  /** The counter, over both words. */
  function Count(low: Word, high: Word): int {
    low + TWO_32 * high
  }

  lemma WrapHigh(low: Word, high: nat)
    ensures (low + TWO_32 * high) % TWO_64 == low + TWO_32 * (high % TWO_32)
  {
    var q := high / TWO_32;
    assert low + TWO_32 * high == low + TWO_32 * (high % TWO_32) + TWO_64 * q;
  }

  lemma WrapSum(a: nat, b: nat)
    ensures (a % TWO_64 + b) % TWO_64 == (a + b) % TWO_64
  {
    assert a == a % TWO_64 + TWO_64 * (a / TWO_64);
  }

  lemma Divided(x: nat, q: nat, r: nat)
    requires x == TWO_32 * q + r && r < TWO_32
    ensures x / TWO_32 == q && x % TWO_32 == r
  {
  }

  lemma ShiftSplits(len: nat)
    requires len < TWO_64
    ensures 8 * len == TWO_32 * (len / 0x2000_0000) + len % TWO_32 * 8 % TWO_32
  {
    var high, low := len / 0x2000_0000, len % 0x2000_0000;
    var carried, kept := high / 8, high % 8;
    Divided(len, carried, 0x2000_0000 * kept + low);
    Divided((0x2000_0000 * kept + low) * 8, kept, 8 * low);
  }

  /** The two words together count modulo 2^64: the carry goes up, and so do the high bits of the length. */
  lemma AddToCount(low: Word, high: Word, len: nat, total: nat)
    requires len < TWO_64 && Count(low, high) == 8 * total % TWO_64
    ensures var low' := (low + len % TWO_32 * 8 % TWO_32) % TWO_32;
      var carry := if low' < low then 1 else 0;
      Count(low', (high + carry + len / 0x2000_0000) % TWO_32) == 8 * (total + len) % TWO_64
  {
    var low8 := len % TWO_32 * 8 % TWO_32;
    var high8 := len / 0x2000_0000;
    ShiftSplits(len);
    var low' := (low + low8) % TWO_32;
    var carry := if low' < low then 1 else 0;
    assert low + low8 == low' + TWO_32 * carry;
    var sum := high + carry + high8;
    WrapHigh(low', sum);
    WrapSum(8 * total, 8 * len);
  }

  lemma CarryWraps(high: Word, more: nat)
    ensures ((high + 1) % TWO_32 + more) % TWO_32 == (high + 1 + more) % TWO_32
  {
  }

  lemma SixBits(low: nat, k: nat)
    ensures (low + 64 * k) % 64 == low % 64
  {
  }

  /** The low word tells how many bytes are in the block. */
  lemma BytesInBlock(low: Word, high: Word, total: nat)
    requires Count(low, high) == 8 * total % TWO_64
    ensures low / 8 % 64 == total % 64
  {
    var q := 8 * total / TWO_64;
    assert 8 * total == low + TWO_32 * high + TWO_64 * q;
    var k: nat := 0x80_0000 * high + 0x80_0000_0000_0000 * q;
    assert 8 * total == low + 512 * k;
    var bytes := low / 8;
    assert total == bytes + 64 * k;
    SixBits(bytes, k);
  }

  class Context<S(0)> {
    const transform: (S, seq<Byte>) -> S
    const initial: S
    var buf: S
    var bits0: Word
    var bits1: Word
    const block: array<Byte>  // the field called `in`
    ghost var message: seq<Byte>  // everything hashed so far

    ghost predicate Valid()
      reads this, block
    {
      && block.Length == 64
      && Count(bits0, bits1) == 8 * |message| % TWO_64
      && var (state, rest) := Absorb(transform, initial, message);
         buf == state && |rest| < 64 && block[..|rest|] == rest
    }

    /** `MD5Init`. */
    constructor (transform: (S, seq<Byte>) -> S, initial: S)
      ensures Valid() && fresh(block) && message == []
      ensures this.transform == transform && this.initial == initial
    {
      this.transform, this.initial, buf := transform, initial, initial;
      bits0, bits1, message := 0, 0, [];
      block := new Byte[64];
    }

    /** `memcpy` into the block. */
    method Copy(at: nat, bytes: seq<Byte>)
      requires at + |bytes| <= block.Length
      modifies block
      ensures block[..at] == old(block[..at]) && block[at..at + |bytes|] == bytes
    {
      forall i | 0 <= i < |bytes| {
        block[at + i] := bytes[i];
      }
    }

    /** `MD5Update`. */
    method Update(bytes: seq<Byte>)
      requires Valid() && |bytes| < TWO_64
      modifies this, block
      ensures Valid() && message == old(message) + bytes
    {
      BytesInBlock(bits0, bits1, |message|);
      LeftOver(transform, initial, message);
      AbsorbConcat(transform, initial, message, bytes);
      ghost var rest := Absorb(transform, initial, message).1;
      var t := bits0 / 8 % 64;  // bytes already in the block
      UpdateCount(|bytes|, |message|);
      UpdateBlock(t, bytes, rest);
      message := message + bytes;
    }

    method UpdateCount(len: nat, ghost total: nat)
      requires len < TWO_64 && Count(bits0, bits1) == 8 * total % TWO_64
      modifies this`bits0, this`bits1
      ensures Count(bits0, bits1) == 8 * (total + len) % TWO_64
    {
      AddToCount(bits0, bits1, len, total);
      CarryWraps(bits1, len / 0x2000_0000);
      hide Count;
      var t := bits0;
      bits0 := (t + len % TWO_32 * 8 % TWO_32) % TWO_32;
      if bits0 < t {
        bits1 := (bits1 + 1) % TWO_32;
      }
      bits1 := (bits1 + len / 0x2000_0000) % TWO_32;
    }

    /** The rest of `MD5Update`, with `t` bytes already in the block. */
    method UpdateBlock(t: nat, bytes: seq<Byte>, ghost rest: seq<Byte>)
      requires block.Length == 64 && t == |rest| < 64 && block[..t] == rest
      modifies this`buf, block
      ensures var (state, left) := Absorb(transform, old(buf), rest + bytes);
        buf == state && |left| < 64 && block[..|left|] == left
    {
      var data := bytes;
      if t != 0 {
        // Fill the block up first.
        var room := 64 - t;
        if |data| < room {
          Copy(t, data);
          assert block[..t + |data|] == block[..t] + block[t..t + |data|];
          return;
        }
        Copy(t, data[..room]);
        assert block[..] == block[..t] + block[t..64];
        assert (rest + bytes)[..64] == block[..] && (rest + bytes)[64..] == data[room..];
        buf := transform(buf, block[..]);
        data := data[room..];
      } else {
        assert rest + bytes == data;
      }
      // Whole blocks go through it one by one.
      while |data| >= 64
        invariant Absorb(transform, buf, data) == Absorb(transform, old(buf), rest + bytes)
      {
        Copy(0, data[..64]);
        assert block[..] == block[0..64];
        buf := transform(buf, block[..]);
        data := data[64..];
      }
      // The rest waits in it.
      Copy(0, data);
      assert block[..|data|] == block[0..|data|];
    }
  }

  function Flatten(parts: seq<seq<Byte>>): seq<Byte> {
    if parts == [] then [] else Flatten(parts[..|parts| - 1]) + parts[|parts| - 1]
  }

  /** However a message is split into updates, the context accounts for the whole of it. */
  method UpdateAll<S(0)>(context: Context<S>, parts: seq<seq<Byte>>)
    requires context.Valid() && context.message == []
    requires forall p :: p in parts ==> |p| < TWO_64
    modifies context, context.block
    ensures context.Valid() && context.message == Flatten(parts)
    ensures context.buf == Fold(context.transform, context.initial, Blocks(Flatten(parts)))
    ensures var rest := |Flatten(parts)| % 64; context.block[..rest] == Flatten(parts)[|Flatten(parts)| - rest..]
  {
    for i := 0 to |parts|
      invariant context.Valid() && context.message == Flatten(parts[..i])
    {
      context.Update(parts[i]);
      assert parts[..i + 1][..i] == parts[..i];
    }
    assert parts[..|parts|] == parts;
    AbsorbFolds(context.transform, context.initial, Flatten(parts));
    LeftOver(context.transform, context.initial, Flatten(parts));
  }
}
