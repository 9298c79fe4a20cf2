/** Reading numbers of various widths from a buffer of bytes, in either byte order. */
module ByteCursor {
  import opened Addresses

  function Pow256(n: nat): (p: nat)
    ensures p > 0
  {
    if n == 0 then 1 else 256 * Pow256(n - 1)
  }

  /** The number with these digits, most significant first. */
  function BigEndian(bs: seq<Byte>): (n: nat)
    ensures n < Pow256(|bs|)
  {
    if bs == [] then 0 else BigEndian(bs[..|bs| - 1]) * 256 + bs[|bs| - 1]
  }

  /** The number with these digits, least significant first. */
  function LittleEndian(bs: seq<Byte>): (n: nat)
    ensures n < Pow256(|bs|)
  {
    if bs == [] then 0 else bs[0] + 256 * LittleEndian(bs[1..])
  }

  function Number(bs: seq<Byte>, bigEndian: bool): nat {
    if bigEndian then BigEndian(bs) else LittleEndian(bs)
  }

  lemma Scaled(d: int, p: int)
    ensures 256 * (d * p) == d * (256 * p)
  {
  }

  lemma {:induction false} LittlePlace(bs: seq<Byte>, i: nat, b: Byte)
    requires i < |bs|
    ensures LittleEndian(bs[i := b]) == LittleEndian(bs) + (b - bs[i]) * Pow256(i)
  {
    var bs' := bs[i := b];
    if i == 0 {
      assert bs'[1..] == bs[1..];
    } else {
      assert bs'[1..] == bs[1..][i - 1 := b];
      LittlePlace(bs[1..], i - 1, b);
      Scaled(b - bs[i], Pow256(i - 1));
    }
  }

  lemma {:induction false} BigPlace(bs: seq<Byte>, i: nat, b: Byte)
    requires i < |bs|
    ensures BigEndian(bs[i := b]) == BigEndian(bs) + (b - bs[i]) * Pow256(|bs| - 1 - i)
  {
    var n, bs' := |bs| - 1, bs[i := b];
    if i == n {
      assert bs'[..n] == bs[..n];
    } else {
      assert bs'[..n] == bs[..n][i := b];
      BigPlace(bs[..n], i, b);
      Scaled(b - bs[i], Pow256(n - 1 - i));
    }
  }

  lemma {:induction false} ZeroBytes(bs: seq<Byte>)
    requires forall i :: 0 <= i < |bs| ==> bs[i] == 0
    ensures BigEndian(bs) == 0 == LittleEndian(bs)
  {
    if bs != [] {
      ZeroBytes(bs[..|bs| - 1]);
      ZeroBytes(bs[1..]);
    }
  }

  /** The byte at offset `i` of a little-endian number counts 256^i, of a big-endian one of n bytes 256^(n-1-i). */
  lemma PlaceValues(bs: seq<Byte>, i: nat, b: Byte)
    requires i < |bs|
    ensures Number(bs[i := b], false) == Number(bs, false) + (b - bs[i]) * Pow256(i)
    ensures Number(bs[i := b], true) == Number(bs, true) + (b - bs[i]) * Pow256(|bs| - 1 - i)
    ensures (forall j :: 0 <= j < |bs| ==> bs[j] == 0) ==> Number(bs, false) == 0 == Number(bs, true)
  {
    LittlePlace(bs, i, b);
    BigPlace(bs, i, b);
    if forall j :: 0 <= j < |bs| ==> bs[j] == 0 {
      ZeroBytes(bs);
    }
  }

  /** The digits of a number, in the given order. */
  function Digits(n: nat, size: nat, bigEndian: bool): (bs: seq<Byte>)
    ensures |bs| == size
  {
    if size == 0 then []
    else if bigEndian then Digits(n / 256, size - 1, true) + [n % 256]
    else [n % 256] + Digits(n / 256, size - 1, false)
  }

  lemma {:induction false} NumberOfDigits(n: nat, size: nat, bigEndian: bool)
    requires n < Pow256(size)
    ensures Number(Digits(n, size, bigEndian), bigEndian) == n
  {
    if size > 0 {
      NumberOfDigits(n / 256, size - 1, bigEndian);
      var rest := Digits(n / 256, size - 1, bigEndian);
      assert (rest + [n % 256])[..size - 1] == rest && ([n % 256] + rest)[1..] == rest;
    }
  }

  /** An integer type of `size` bytes. */
  datatype IntType = IntType(size: nat, signed: bool) {
    /** What storing `x` in the type makes of it. */
    function Wrap(x: int): (r: int)
      ensures !signed ==> 0 <= r < Pow256(size)
    {
      var m := Pow256(size);
      if signed && x % m >= m / 2 then x % m - m else x % m
    }
  }

  const U8 := IntType(1, false)
  const I16 := IntType(2, true)
  const U64 := IntType(8, false)

  /** The `size` bytes of `n` as a two's complement number. */
  function SignExtended(n: nat, size: nat): int {
    if n < Pow256(size) / 2 then n else n - Pow256(size)
  }

  lemma Halves(size: nat)
    requires size > 0
    ensures Pow256(size) == 2 * (Pow256(size) / 2)
  {
    assert Pow256(size) == 2 * (128 * Pow256(size - 1));
  }

  /** What is stored differs from the number by a multiple of 256^size, and lies in the type's range. */
  lemma WrapMeans(t: IntType, x: int) returns (k: int)
    requires t.size > 0
    ensures t.Wrap(x) == x + k * Pow256(t.size)
    ensures if t.signed then 0 - Pow256(t.size) <= 2 * t.Wrap(x) < Pow256(t.size) else 0 <= t.Wrap(x) < Pow256(t.size)
  {
    var m := Pow256(t.size);
    Halves(t.size);
    hide Pow256;
    k := if t.Wrap(x) == x % m then -(x / m) else -(x / m) - 1;
    assert x == x / m * m + x % m;
  }

  /** The two's complement number lies in the range of its bytes. */
  lemma SignExtendedMeans(n: nat, size: nat)
    requires size > 0 && n < Pow256(size)
    ensures 0 - Pow256(size) <= 2 * SignExtended(n, size) < Pow256(size)
    ensures SignExtended(n, size) == n || SignExtended(n, size) == n - Pow256(size)
  {
    Halves(size);
  }

  /** What reading the bytes into a variable of type `t` gives. */
  function Value(bs: seq<Byte>, bigEndian: bool, isSigned: bool, t: IntType): int {
    var n := Number(bs, bigEndian);
    t.Wrap(if isSigned && |bs| < t.size then SignExtended(n, |bs|) else n)
  }

  /** Read as signed into a wider type, a number whose first bit is set stands for one 256^n lower; then, and in
      every other case, the type keeps what it can hold. */
  lemma ValueMeans(bs: seq<Byte>, bigEndian: bool, isSigned: bool, t: IntType)
    ensures var n := Number(bs, bigEndian);
      Value(bs, bigEndian, isSigned, t)
      == t.Wrap(if isSigned && |bs| < t.size && n >= Pow256(|bs|) / 2 then n - Pow256(|bs|) else n)
  {
    hide IntType.Wrap, BigEndian, LittleEndian, Pow256;
  }

  lemma SameRemainder(x: int, y: int, k: int, m: nat)
    requires m > 0 && x == y + k * m
    ensures x % m == y % m
  {
    var q, r := y / m, y % m;
    assert x == (q + k) * m + r;
    Remainder(x, q + k, r, m);
  }

  lemma {:induction false} AtLeastOnce(k: nat, m: nat)
    requires k >= 1
    ensures k * m >= m
  {
    if k > 1 {
      AtLeastOnce(k - 1, m);
      assert k * m == (k - 1) * m + m;
    }
  }

  lemma NotLess(a: int, b: int, m: nat, r: nat, s: nat)
    requires r < m && s < m && a * m + r == b * m + s
    ensures a >= b
  {
    if a < b {
      assert (b - a) * m == b * m - a * m;
      AtLeastOnce(b - a, m);
    }
  }

  lemma Remainder(x: int, q: int, r: nat, m: nat)
    requires r < m && x == q * m + r
    ensures x % m == r
  {
    var d := x / m;
    assert x == d * m + x % m;
    NotLess(d, q, m, x % m, r);
    NotLess(q, d, m, r, x % m);
  }

  /** Shifting in one more byte may be done on the wrapped number. */
  lemma ShiftWrapped(t: IntType, x: int, b: Byte)
    ensures t.Wrap(t.Wrap(x) * 256 + b) == t.Wrap(x * 256 + b)
  {
    var m := Pow256(t.size);
    var k := if t.Wrap(x) == x % m then -(x / m) else -(x / m) - 1;
    assert t.Wrap(x) == x + k * m;
    assert t.Wrap(x) * 256 + b == x * 256 + b + (256 * k) * m;
    SameRemainder(t.Wrap(x) * 256 + b, x * 256 + b, 256 * k, m);
  }

  lemma NoDigits()
    ensures BigEndian([]) == 0 == LittleEndian([])
  {
  }

  lemma AppendByte(t: IntType, bs: seq<Byte>, i: nat)
    requires i < |bs|
    ensures t.Wrap(t.Wrap(BigEndian(bs[..i])) * 256 + bs[i]) == t.Wrap(BigEndian(bs[..i + 1]))
  {
    assert bs[..i + 1][..i] == bs[..i];
    ShiftWrapped(t, BigEndian(bs[..i]), bs[i]);
  }

  lemma PrependByte(t: IntType, bs: seq<Byte>, i: nat)
    requires i < |bs|
    ensures t.Wrap(t.Wrap(LittleEndian(bs[i + 1..])) * 256 + bs[i]) == t.Wrap(LittleEndian(bs[i..]))
  {
    assert bs[i..][1..] == bs[i + 1..];
    ShiftWrapped(t, LittleEndian(bs[i + 1..]), bs[i]);
  }

  lemma {:induction false} PowGrows(small: nat, large: nat)
    requires small < large
    ensures 256 * Pow256(small) <= Pow256(large)
    decreases large
  {
    if small + 1 < large {
      PowGrows(small, large - 1);
    }
  }

  /** `(v ^ signBit) - signBit` */
  function FlipSign(v: int, size: nat): int {
    var signBit := Pow256(size) / 2;
    (if v >= signBit then v - signBit else v + signBit) - signBit
  }

  lemma FlipSignExtends(t: IntType, n: nat, size: nat)
    requires 0 < size < t.size && n < Pow256(size)
    ensures FlipSign(t.Wrap(n), size) == SignExtended(n, size)
  {
    PowGrows(size, t.size);
    Remainder(n, 0, n, Pow256(t.size));
    assert Pow256(size) == 2 * (Pow256(size) / 2);
  }

  class ByteCursor {
    const buffer: seq<Byte>
    const bigEndian: bool
    var here: nat
    var complete: bool

    predicate Valid()
      reads this
    {
      here <= |buffer|
    }

    constructor (buffer: seq<Byte>, bigEndian: bool)
      ensures Valid() && here == 0 && complete && this.buffer == buffer && this.bigEndian == bigEndian
    {
      this.buffer, this.bigEndian, here, complete := buffer, bigEndian, 0, true;
    }

    function Available(): nat
      requires Valid()
      reads this
    {
      |buffer| - here
    }

    method CheckAvailable(size: nat) returns (available: bool)
      requires Valid()
      modifies this
      ensures Valid() && (available <==> size <= old(Available()))
      ensures if available then unchanged(this) else here == |buffer| && !complete
    {
      if Available() >= size {
        return true;
      }
      here, complete := |buffer|, false;
      return false;
    }

    /** Read `size` bytes into a variable of type `t`. */
    method Read(size: nat, isSigned: bool, t: IntType) returns (result: int)
      requires Valid() && size < TWO_64 && (isSigned ==> 0 < size)
      modifies this
      ensures Valid()
      ensures if size <= old(Available())
        then here == old(here) + size && complete == old(complete)
             && result == Value(buffer[old(here)..here], bigEndian, isSigned, t)
        else here == |buffer| && !complete && result == t.Wrap(0xdeadbeef)
      ensures !t.signed ==> 0 <= result < Pow256(t.size)
    {
      hide IntType.Wrap, BigEndian, LittleEndian, Pow256, FlipSign, SignExtended;
      var available := CheckAvailable(size);
      if !available {
        return t.Wrap(0xdeadbeef);
      }
      ghost var bs := buffer[here..here + size];
      assert bs[..0] == [] == bs[size..] && bs[..size] == bs == bs[0..];
      NoDigits();
      var v := t.Wrap(0);
      if bigEndian {
        var i: nat := 0;
        while i < size
          invariant unchanged(this) && i <= size && v == t.Wrap(BigEndian(bs[..i]))
        {
          AppendByte(t, bs, i);
          v := t.Wrap(v * 256 + buffer[here + i]);
          i := i + 1;
        }
      } else {
        var i: Address := Minus(size, 1);  // wraps to the largest number after zero, which ends the loop
        while i < size
          invariant unchanged(this) && (i < size || i == TWO_64 - 1)
          invariant v == t.Wrap(LittleEndian(bs[if i < size then i + 1 else 0..]))
          decreases if i < size then i + 1 else 0
        {
          PrependByte(t, bs, i);
          v := t.Wrap(v * 256 + buffer[here + i]);
          i := Minus(i, 1);
        }
      }
      if isSigned && size < t.size {
        FlipSignExtends(t, Number(bs, bigEndian), size);
        v := t.Wrap(FlipSign(v, size));
      }
      here := here + size;
      result := v;
    }
  }
}
