/** Walking the entries of a `.stab` section. */
module StabsEntries {
  import opened Addresses
  import opened ByteCursor

  datatype Entry = Entry(nameOffset: Address, kind: Byte, other: Byte, descriptor: int, value: Address)

  /** The number of bytes of an entry; values have four or eight bytes. */
  function EntrySize(valueSize: nat): nat {
    8 + valueSize
  }

  predicate GoodValueSize(valueSize: nat) {
    valueSize == 4 || valueSize == 8
  }

  /** How many whole entries there are. */
  function EntryCount(size: nat, valueSize: nat): (n: nat)
    requires GoodValueSize(valueSize)
    ensures forall k: nat {:trigger EntrySize(valueSize) * k} ::
      k < n <==> EntrySize(valueSize) * k + EntrySize(valueSize) <= size
  {
    size / EntrySize(valueSize)
  }

  /** The entry in these bytes. */
  function Decoded(bs: seq<Byte>, bigEndian: bool): (e: Entry)
    requires |bs| == 12 || |bs| == 16
  {
    SmallPowers();
    Entry(Number(bs[0..4], bigEndian), bs[4], bs[5], I16.Wrap(Number(bs[6..8], bigEndian)), Number(bs[8..], bigEndian))
  }

  lemma ByteBehind(bs: seq<Byte>, b: Byte)
    ensures BigEndian(bs + [b]) == 0x100 * BigEndian(bs) + b
  {
    assert (bs + [b])[..|bs|] == bs;
  }

  lemma ByteBefore(b: Byte, bs: seq<Byte>)
    ensures LittleEndian([b] + bs) == b + 0x100 * LittleEndian(bs)
  {
    assert ([b] + bs)[1..] == bs;
  }

  lemma TwoBytes(a: Byte, b: Byte)
    ensures Number([a, b], true) == 0x100 * a + b && Number([a, b], false) == a + 0x100 * b
  {
    OneDigit(a, true);
    OneDigit(b, false);
    assert [a, b] == [a] + [b];
    ByteBehind([a], b);
    ByteBefore(a, [b]);
    hide BigEndian, LittleEndian;
  }

  lemma FourBytes(a: Byte, b: Byte, c: Byte, d: Byte)
    ensures Number([a, b, c, d], true) == 0x100_0000 * a + 0x1_0000 * b + 0x100 * c + d
    ensures Number([a, b, c, d], false) == a + 0x100 * b + 0x1_0000 * c + 0x100_0000 * d
  {
    hide BigEndian, LittleEndian;
    TwoBytes(a, b);
    ByteBehind([a, b], c);
    ByteBehind([a, b] + [c], d);
    TwoBytes(c, d);
    ByteBefore(b, [c, d]);
    ByteBefore(a, [b] + [c, d]);
    assert [a, b, c, d] == [a, b] + [c] + [d] == [a] + ([b] + [c, d]);
  }

  lemma ShiftBoth(x: int, p: int, n: int, b: int)
    ensures 0x100 * (x * p + n) + b == x * (256 * p) + (0x100 * n + b)
  {
  }

  lemma {:induction false} BigPrefix(a: seq<Byte>, b: seq<Byte>)
    ensures BigEndian(a + b) == BigEndian(a) * Pow256(|b|) + BigEndian(b)
  {
    hide BigEndian;
    NoDigits();
    if b == [] {
      assert a + b == a && Pow256(0) == 1;
    } else {
      var n := |b| - 1;
      var init, last := b[..n], b[n];
      BigPrefix(a, init);
      ByteBehind(a + init, last);
      ByteBehind(init, last);
      assert a + b == a + init + [last] && b == init + [last] && Pow256(n + 1) == 256 * Pow256(n);
      hide Pow256;
      ShiftBoth(BigEndian(a), Pow256(n), BigEndian(init), last);
    }
  }

  lemma {:induction false} LittlePrefix(a: seq<Byte>, b: seq<Byte>)
    ensures LittleEndian(a + b) == LittleEndian(a) + LittleEndian(b) * Pow256(|a|)
  {
    if a == [] {
      assert a + b == b;
    } else {
      LittlePrefix(a[1..], b);
      assert (a + b)[1..] == a[1..] + b;
      Scaled(LittleEndian(b), Pow256(|a| - 1));
    }
  }

  /** Two words of four bytes. */
  lemma EightBytes(a: seq<Byte>, b: seq<Byte>)
    requires |a| == 4 == |b|
    ensures Number(a + b, true) == 0x1_0000_0000 * Number(a, true) + Number(b, true)
    ensures Number(a + b, false) == Number(a, false) + 0x1_0000_0000 * Number(b, false)
  {
    SmallPowers();
    hide Pow256, BigEndian, LittleEndian;
    BigPrefix(a, b);
    LittlePrefix(a, b);
  }

  /** The bytes of an entry with a value of four bytes, in either order. */
  lemma EntryLayout(a: Byte, b: Byte, c: Byte, d: Byte, kind: Byte, other: Byte, x: Byte, y: Byte,
                    p: Byte, q: Byte, r: Byte, s: Byte)
    ensures Decoded([a, b, c, d, kind, other, x, y, p, q, r, s], true)
      == Entry(0x100_0000 * a + 0x1_0000 * b + 0x100 * c + d, kind, other,
               0x100 * x + y - (if x < 0x80 then 0 else 0x10000),
               0x100_0000 * p + 0x1_0000 * q + 0x100 * r + s)
    ensures Decoded([a, b, c, d, kind, other, x, y, p, q, r, s], false)
      == Entry(a + 0x100 * b + 0x1_0000 * c + 0x100_0000 * d, kind, other,
               x + 0x100 * y - (if y < 0x80 then 0 else 0x10000),
               p + 0x100 * q + 0x1_0000 * r + 0x100_0000 * s)
  {
    var bs := [a, b, c, d, kind, other, x, y, p, q, r, s];
    assert bs[0..4] == [a, b, c, d] && bs[6..8] == [x, y] && bs[8..] == [p, q, r, s];
    FourBytes(a, b, c, d);
    FourBytes(p, q, r, s);
    TwoBytes(x, y);
    SmallPowers();
    hide Number, Pow256;
  }

  /** An entry with a value of eight bytes is one with four, the value taken from both words. */
  lemma LongEntryLayout(bs: seq<Byte>)
    requires |bs| == 16
    ensures Decoded(bs, true)
      == Decoded(bs[..12], true).(value := 0x1_0000_0000 * Number(bs[8..12], true) + Number(bs[12..], true))
    ensures Decoded(bs, false)
      == Decoded(bs[..12], false).(value := Number(bs[8..12], false) + 0x1_0000_0000 * Number(bs[12..], false))
  {
    assert bs[8..] == bs[8..12] + bs[12..] && bs[..12][0..4] == bs[0..4] && bs[..12][6..8] == bs[6..8];
    EightBytes(bs[8..12], bs[12..]);
    SmallPowers();
    hide Number, Pow256;
  }

  function EntryAt(buffer: seq<Byte>, k: nat, bigEndian: bool, valueSize: nat): Entry
    requires GoodValueSize(valueSize) && k < EntryCount(|buffer|, valueSize)
  {
    var start := EntrySize(valueSize) * k;
    Decoded(buffer[start..start + EntrySize(valueSize)], bigEndian)
  }

  function Entries(buffer: seq<Byte>, bigEndian: bool, valueSize: nat): (es: seq<Entry>)
    requires GoodValueSize(valueSize)
    ensures |es| == EntryCount(|buffer|, valueSize)
    ensures forall k :: 0 <= k < |es| ==> es[k] == EntryAt(buffer, k, bigEndian, valueSize)
  {
    seq(EntryCount(|buffer|, valueSize), k requires 0 <= k < EntryCount(|buffer|, valueSize) =>
      EntryAt(buffer, k, bigEndian, valueSize))
  }

  /** Each field fits its bytes. */
  predicate Proper(e: Entry, valueSize: nat) {
    e.nameOffset < Pow256(4) && -0x8000 <= e.descriptor < 0x8000 && e.value < Pow256(valueSize)
  }

  /** The bytes of an entry. */
  function Encoded(e: Entry, bigEndian: bool, valueSize: nat): (bs: seq<Byte>)
    requires GoodValueSize(valueSize) && Proper(e, valueSize)
    ensures |bs| == EntrySize(valueSize)
  {
    Digits(e.nameOffset, 4, bigEndian) + [e.kind] + [e.other]
    + Digits(e.descriptor % 0x10000, 2, bigEndian) + Digits(e.value, valueSize, bigEndian)
  }

  function Section(es: seq<Entry>, bigEndian: bool, valueSize: nat): (bs: seq<Byte>)
    requires GoodValueSize(valueSize) && forall e :: e in es ==> Proper(e, valueSize)
    ensures |bs| == EntrySize(valueSize) * |es|
  {
    if es == [] then []
    else Section(es[..|es| - 1], bigEndian, valueSize) + Encoded(es[|es| - 1], bigEndian, valueSize)
  }

  lemma SmallPowers()
    ensures Pow256(1) == 0x100 && Pow256(2) == 0x10000 && Pow256(4) == 0x1_0000_0000 && Pow256(8) == TWO_64
  {
    assert Pow256(3) == 0x100_0000 && Pow256(6) == 0x1_0000_0000_0000 && Pow256(7) == 0x100_0000_0000_0000;
  }

  lemma DecodedEncoded(e: Entry, bigEndian: bool, valueSize: nat)
    requires GoodValueSize(valueSize) && Proper(e, valueSize)
    ensures Decoded(Encoded(e, bigEndian, valueSize), bigEndian) == e
  {
    hide Pow256, Digits;
    SmallPowers();
    var bs := Encoded(e, bigEndian, valueSize);
    assert bs[0..4] == Digits(e.nameOffset, 4, bigEndian);
    assert bs[6..8] == Digits(e.descriptor % 0x10000, 2, bigEndian);
    assert bs[8..] == Digits(e.value, valueSize, bigEndian);
    NumberOfDigits(e.nameOffset, 4, bigEndian);
    NumberOfDigits(e.descriptor % 0x10000, 2, bigEndian);
    NumberOfDigits(e.value, valueSize, bigEndian);
  }

  lemma SliceOfPrefix(s: seq<Byte>, rest: seq<Byte>, a: nat, b: nat)
    requires a <= b <= |s|
    ensures (s + rest)[a..b] == s[a..b]
  {
  }

  lemma SliceBehind(s: seq<Byte>, rest: seq<Byte>)
    ensures (s + rest)[|s|..|s| + |rest|] == rest
  {
  }

  lemma {:induction false} SectionAt(es: seq<Entry>, bigEndian: bool, valueSize: nat, k: nat)
    requires GoodValueSize(valueSize) && (forall e :: e in es ==> Proper(e, valueSize)) && k < |es|
    ensures var start := EntrySize(valueSize) * k;
      && start + EntrySize(valueSize) <= EntrySize(valueSize) * |es|
      && Section(es, bigEndian, valueSize)[start..start + EntrySize(valueSize)] == Encoded(es[k], bigEndian, valueSize)
  {
    hide Encoded, Proper;
    var n := |es| - 1;
    var init, last := Section(es[..n], bigEndian, valueSize), Encoded(es[n], bigEndian, valueSize);
    if k < n {
      var start := EntrySize(valueSize) * k;
      SectionAt(es[..n], bigEndian, valueSize, k);
      SliceOfPrefix(init, last, start, start + EntrySize(valueSize));
    } else {
      SliceBehind(init, last);
    }
  }

  /** Writing entries, then some bytes too few for another, and walking them gives the entries back. */
  lemma SectionRoundTrip(es: seq<Entry>, rest: seq<Byte>, bigEndian: bool, valueSize: nat)
    requires GoodValueSize(valueSize) && (forall e :: e in es ==> Proper(e, valueSize))
    requires |rest| < EntrySize(valueSize)
    ensures Entries(Section(es, bigEndian, valueSize) + rest, bigEndian, valueSize) == es
  {
    hide Section, Encoded, Decoded, Proper;
    var buffer := Section(es, bigEndian, valueSize) + rest;
    forall k | 0 <= k < |es| ensures EntryAt(buffer, k, bigEndian, valueSize) == es[k] {
      SectionAt(es, bigEndian, valueSize, k);
      var start := EntrySize(valueSize) * k;
      SliceOfPrefix(Section(es, bigEndian, valueSize), rest, start, start + EntrySize(valueSize));
      DecodedEncoded(es[k], bigEndian, valueSize);
    }
  }

  lemma WrapKeeps(n: nat, t: IntType)
    requires !t.signed && n < Pow256(t.size)
    ensures t.Wrap(n) == n
  {
    Remainder(n, 0, n, Pow256(t.size));
  }

  lemma FieldsFit(bs: seq<Byte>, bigEndian: bool, valueSize: nat)
    requires GoodValueSize(valueSize) && |bs| == EntrySize(valueSize)
    ensures Value(bs[0..4], bigEndian, false, U64) == Decoded(bs, bigEndian).nameOffset
    ensures Value(bs[4..5], bigEndian, false, U8) == Decoded(bs, bigEndian).kind
    ensures Value(bs[5..6], bigEndian, false, U8) == Decoded(bs, bigEndian).other
    ensures Value(bs[6..8], bigEndian, false, I16) == Decoded(bs, bigEndian).descriptor
    ensures Value(bs[8..], bigEndian, false, U64) == Decoded(bs, bigEndian).value
    ensures Proper(Decoded(bs, bigEndian), valueSize)
  {
    SmallPowers();
    hide Pow256;
    WrapKeeps(Number(bs[0..4], bigEndian), U64);
    assert bs[4..5] == [bs[4]] && bs[5..6] == [bs[5]];
    OneDigit(bs[4], bigEndian);
    OneDigit(bs[5], bigEndian);
    WrapKeeps(bs[4], U8);
    WrapKeeps(bs[5], U8);
    WrapKeeps(Number(bs[8..], bigEndian), U64);
  }

  lemma OneDigit(b: Byte, bigEndian: bool)
    ensures Number([b], bigEndian) == b
  {
  }

  lemma SliceOfSlice(s: seq<Byte>, a: nat, b: nat, i: nat, j: nat)
    requires a <= b <= |s| && i <= j <= b - a
    ensures s[a..b][i..j] == s[a + i..a + j]
  {
    var t := s[a..b];
    assert forall k :: i <= k < j ==> t[k] == s[a + k];
    assert |t[i..j]| == |s[a + i..a + j]|;
    assert forall k :: 0 <= k < j - i ==> t[i..j][k] == t[i + k] == s[a + i..a + j][k];
  }

  lemma SlicesOfEntry(buffer: seq<Byte>, start: nat, valueSize: nat)
    requires GoodValueSize(valueSize) && start + EntrySize(valueSize) <= |buffer|
    ensures var bs := buffer[start..start + EntrySize(valueSize)];
      && bs[0..4] == buffer[start..start + 4] && bs[4..5] == buffer[start + 4..start + 5]
      && bs[5..6] == buffer[start + 5..start + 6] && bs[6..8] == buffer[start + 6..start + 8]
      && bs[8..] == buffer[start + 8..start + EntrySize(valueSize)]
  {
    var end := start + EntrySize(valueSize);
    SliceOfSlice(buffer, start, end, 4, 5);
    SliceOfSlice(buffer, start, end, 5, 6);
    SliceOfSlice(buffer, start, end, 6, 8);
  }

  class EntryIterator {
    const buffer: seq<Byte>
    const bigEndian: bool
    const valueSize: nat
    const cursor: ByteCursor
    var atEnd: bool
    var entry: Entry  // valid unless at the end
    var index: nat

    ghost predicate Valid()
      reads this, cursor
    {
      && GoodValueSize(valueSize) && cursor.buffer == buffer && cursor.bigEndian == bigEndian && cursor.Valid()
      && var n := EntryCount(|buffer|, valueSize);
        && index <= n && (atEnd <==> index == n)
        && (!atEnd ==> && entry == EntryAt(buffer, index, bigEndian, valueSize) && cursor.complete
                       && cursor.here == EntrySize(valueSize) * index + EntrySize(valueSize))
    }

    ghost function All(): seq<Entry>
      requires GoodValueSize(valueSize)
    {
      Entries(buffer, bigEndian, valueSize)
    }

    constructor (buffer: seq<Byte>, bigEndian: bool, valueSize: nat)
      requires GoodValueSize(valueSize)
      ensures Valid() && index == 0 && fresh(cursor)
      ensures this.buffer == buffer && this.bigEndian == bigEndian && this.valueSize == valueSize
    {
      this.buffer, this.bigEndian, this.valueSize := buffer, bigEndian, valueSize;
      cursor := new ByteCursor(buffer, bigEndian);
      index := 0;
      new;
      Fetch(0);
    }

    /** Read entry `k`, the next one. */
    method Fetch(ghost k: nat)
      requires GoodValueSize(valueSize) && cursor.buffer == buffer && cursor.bigEndian == bigEndian
      requires cursor.Valid() && cursor.complete && cursor.here == EntrySize(valueSize) * k
      modifies cursor, `entry, `atEnd
      ensures cursor.Valid() && (atEnd <==> k == EntryCount(|buffer|, valueSize))
      ensures k <= EntryCount(|buffer|, valueSize)
      ensures !atEnd ==> cursor.complete && cursor.here == EntrySize(valueSize) * k + EntrySize(valueSize)
      ensures !atEnd ==> entry == EntryAt(buffer, k, bigEndian, valueSize)
    {
      hide Number, Pow256, IntType.Wrap, Value, Decoded;
      SmallPowers();
      var start := cursor.here;
      var nameOffset := cursor.Read(4, false, U64);
      var kind := cursor.Read(1, false, U8);
      var other := cursor.Read(1, false, U8);
      var descriptor := cursor.Read(2, false, I16);
      var value := cursor.Read(valueSize, false, U64);
      entry, atEnd := Entry(nameOffset, kind, other, descriptor, value), !cursor.complete;
      if !atEnd {
        var bs := buffer[start..start + EntrySize(valueSize)];
        FieldsFit(bs, bigEndian, valueSize);
        SlicesOfEntry(buffer, start, valueSize);
      }
    }

    /** `operator++` */
    method Advance()
      requires Valid() && !atEnd
      modifies this, cursor
      ensures Valid() && index == old(index) + 1
    {
      Fetch(index + 1);
      index := index + 1;
    }
  }
}
