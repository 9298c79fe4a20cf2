/** Ranges that never overlap, each with an entry. */
module RangeMap {
  import opened Addresses
  import opened SymbolModule

  /** The map's keys are the last addresses of the ranges. `delta` is how far the range was shrunk: it began that
      much lower. */
  datatype Stored<+T> = Stored(base: Address, delta: Address, entry: T)

  ghost predicate Overlaps(base: Address, high: Address, otherBase: Address, otherHigh: Address) {
    base <= otherHigh && otherBase <= high
  }

  ghost predicate RangesOk<T>(m: map<Address, Stored<T>>) {
    && (forall h :: h in m ==> m[h].base <= h)
    && forall h, k :: h in m && k in m && h != k ==> !Overlaps(m[h].base, h, m[k].base, k)
  }

  /** The first key from `a` on. */
  ghost predicate IsLowerBound<V>(m: map<Address, V>, a: int, r: Option<Address>)
    ensures IsLowerBound(m, a, r) && r.Some? ==> r.value in m && a <= r.value
  {
    match r
    case None => forall k :: k in m ==> k < a
    case Some(h) => h in m && a <= h && forall k :: k in m && a <= k ==> h <= k
  }

  /** `std::map::lower_bound` */
  method LowerBound<V>(m: map<Address, V>, a: int) returns (r: Option<Address>)
    ensures IsLowerBound(m, a, r)
  {
    r := None;
    var left := m.Keys;
    while left != {}
      invariant left <= m.Keys
      invariant match r
        case None => forall k :: k in m && k !in left ==> k < a
        case Some(h) => h in m && a <= h && forall k :: k in m && k !in left && a <= k ==> h <= k
      decreases |left|
    {
      var k :| k in left;
      if a <= k && (r.None? || k < r.value) {
        r := Some(k);
      }
      left := left - {k};
    }
  }

  /** Two searches tell whether a range is free. */
  lemma FreeBetween<T>(m: map<Address, Stored<T>>, base: Address, high: Address, fromBase: Option<Address>,
                       fromHigh: Option<Address>)
    requires RangesOk(m) && base <= high && IsLowerBound(m, base, fromBase) && IsLowerBound(m, high, fromHigh)
    ensures (fromBase == fromHigh && (fromHigh.Some? ==> high < m[fromHigh.value].base))
      <==> forall k :: k in m ==> !Overlaps(base, high, m[k].base, k)
  {
    if fromBase == fromHigh && (fromHigh.Some? ==> high < m[fromHigh.value].base) {
      forall k | k in m ensures !Overlaps(base, high, m[k].base, k) {
        assert k != high || fromHigh == Some(k);
        if fromHigh.Some? && k > fromHigh.value {
          assert !Overlaps(m[fromHigh.value].base, fromHigh.value, m[k].base, k);
        }
      }
    } else if fromBase != fromHigh {
      assert fromBase.Some?;
      assert Overlaps(base, high, m[fromBase.value].base, fromBase.value);
    } else {
      assert Overlaps(base, high, m[fromHigh.value].base, fromHigh.value);
    }
  }

  ghost predicate Covers<T>(m: map<Address, Stored<T>>, h: Address, a: Address) {
    h in m && m[h].base <= a <= h
  }

  lemma FoundMeansCovered<T>(m: map<Address, Stored<T>>, a: Address, r: Option<Address>)
    requires RangesOk(m) && IsLowerBound(m, a, r)
    ensures r.Some? && m[r.value].base <= a <==> exists h :: Covers(m, h, a)
    ensures forall h: Address :: Covers(m, h, a) ==> r == Some(h)
  {
    forall h: Address | Covers(m, h, a) ensures r == Some(h) {
      assert r.Some? && r.value <= h;
      assert forall k :: k in m && k != h ==> !Overlaps(m[h].base, h, m[k].base, k);
    }
    if r.Some? && m[r.value].base <= a {
      assert Covers(m, r.value, a);
    }
  }

  /** The range is not empty, does not wrap and overlaps no stored range. */
  ghost predicate Fits<T>(m: map<Address, Stored<T>>, base: Address, size: Address) {
    0 < size && base + size <= TWO_64 && forall k :: k in m ==> !Overlaps(base, base + size - 1, m[k].base, k)
  }

  /** Ranges lie behind those that end before them, and are shrunk only as far as the one just before. */
  ghost predicate Settled<T>(m: map<Address, Stored<T>>) {
    SettledBut(m, -1)
  }

  /** One may have been shrunk already for a range that is to end at `high`. */
  ghost predicate SettledBut<T>(m: map<Address, Stored<T>>, high: int) {
    InOrder(m) && ShrunkRight(m, high)
  }

  ghost predicate InOrder<T>(m: map<Address, Stored<T>>) {
    && (forall k :: k in m ==> m[k].delta <= m[k].base <= k)
    && forall j, k :: j in m && k in m && j < k ==> j < m[k].base
  }

  ghost predicate ShrunkRight<T>(m: map<Address, Stored<T>>, high: int) {
    forall k: Address {:trigger ShrunkAt(m, k, high)} :: k in m ==> ShrunkAt(m, k, high)
  }

  ghost predicate ShrunkAt<T>(m: map<Address, Stored<T>>, k: Address, high: int)
    requires k in m
  {
    m[k].delta > 0 ==> m[k].base - 1 == high || EndsAt(m, m[k].base - 1)
  }

  ghost predicate EndsAt<T>(m: map<Address, Stored<T>>, a: int) {
    0 <= a < TWO_64 && a in m
  }

  lemma InOrderIsOk<T>(m: map<Address, Stored<T>>)
    requires InOrder(m)
    ensures RangesOk(m)
  {
  }

  /** The range as it was before it was shrunk. */
  datatype Original<+T> = Original(base: int, entry: T)

  ghost function Originals<T>(m: map<Address, Stored<T>>): map<Address, Original<T>> {
    map k | k in m :: Original(m[k].base - m[k].delta, m[k].entry)
  }

  /** The ranges as they were determine the ranges as they are. */
  lemma OriginalsDetermine<T>(m: map<Address, Stored<T>>, m': map<Address, Stored<T>>)
    requires Settled(m) && Settled(m') && Originals(m) == Originals(m')
    ensures m == m'
  {
    forall k | k in m || k in m' ensures k in m && k in m' && m[k] == m'[k] {
      assert k in Originals(m) <==> k in Originals(m');
      assert Originals(m)[k] == Originals(m')[k];
      NotShrunkFurther(m, m', k);
      NotShrunkFurther(m', m, k);
    }
  }

  lemma NotShrunkFurther<T>(m: map<Address, Stored<T>>, m': map<Address, Stored<T>>, k: Address)
    requires Settled(m) && Settled(m') && Originals(m) == Originals(m') && k in m && k in m'
    ensures m[k].base <= m'[k].base
  {
    assert Originals(m)[k] == Originals(m')[k];
    assert ShrunkAt(m, k, -1);
    if m[k].delta > 0 {
      var j: Address := m[k].base - 1;
      assert j in Originals(m) && j in Originals(m');
      assert j in m' && j < k;
    }
  }

  /** Of the ranges that had an address at first, the one that ends first has it. */
  lemma EndsFirst<T>(m: map<Address, Stored<T>>, h: Address, a: Address)
    requires Settled(m) && h in m
    ensures Covers(m, h, a) <==> Originals(m)[h].base <= a <= h && forall k :: k in m && a <= k ==> h <= k
  {
    assert ShrunkAt(m, h, -1);
  }

  /** What storing a range asks for: with shrinking, that no range ends where it ends. */
  ghost predicate Accepts<T>(m: map<Address, Stored<T>>, shrink: bool, base: Address, size: Address) {
    if shrink then 0 < size && base + size <= TWO_64 && base + size - 1 !in m else Fits(m, base, size)
  }

  /** Some range that ends behind `high` begins by it. */
  ghost predicate ReachesDown<T>(m: map<Address, Stored<T>>, high: int) {
    exists k :: k in m && BeginsBy(m, k, high)
  }

  ghost predicate BeginsBy<T>(m: map<Address, Stored<T>>, k: Address, high: int)
    requires k in m
  {
    high < k && m[k].base <= high
  }

  ghost predicate FreeFor<T>(m: map<Address, Stored<T>>, base: Address, high: Address) {
    forall k :: k in m ==> k < base || high < m[k].base
  }

  lemma StaysInOrder<T>(m: map<Address, Stored<T>>, base: Address, delta: Address, high: Address, entry: T)
    requires InOrder(m) && delta <= base <= high && high !in m
    requires FreeFor(m, base, high)
    ensures InOrder(m[high := Stored(base, delta, entry)])
  {
  }

  lemma StaysShrunkRight<T>(m: map<Address, Stored<T>>, base: Address, delta: Address, high: Address, entry: T)
    requires ShrunkRight(m, high) && high !in m && (delta > 0 ==> EndsAt(m, base - 1))
    ensures ShrunkRight(m[high := Stored(base, delta, entry)], -1)
  {
    var m' := m[high := Stored(base, delta, entry)];
    forall k: Address | k in m' ensures ShrunkAt(m', k, -1) {
      if k != high {
        assert ShrunkAt(m, k, high);
      }
    }
  }

  lemma OneMoreOriginal<T>(m: map<Address, Stored<T>>, k: Address, s: Stored<T>)
    ensures Originals(m[k := s]) == Originals(m)[k := Original(s.base - s.delta, s.entry)]
  {
  }

  lemma Settles<T>(m: map<Address, Stored<T>>, base: Address, delta: Address, high: Address, entry: T)
    requires SettledBut(m, high) && delta <= base <= high && (delta > 0 ==> EndsAt(m, base - 1)) && high !in m
    requires FreeFor(m, base, high)
    ensures Settled(m[high := Stored(base, delta, entry)])
    ensures Originals(m[high := Stored(base, delta, entry)]) == Originals(m)[high := Original(base - delta, entry)]
  {
    StaysInOrder(m, base, delta, high, entry);
    StaysShrunkRight(m, base, delta, high, entry);
    OneMoreOriginal(m, high, Stored(base, delta, entry));
    hide InOrder, ShrunkRight, Originals;
  }

  /** What two searches tell about the ranges that end in this one or behind it. */
  lemma EndsWithin<T>(m: map<Address, Stored<T>>, base: Address, high: Address, fromBase: Option<Address>,
                      fromHigh: Option<Address>)
    requires SettledBut(m, high) && base <= high && IsLowerBound(m, base, fromBase) && IsLowerBound(m, high, fromHigh)
    ensures fromBase != fromHigh ==> fromBase.Some? && base <= fromBase.value < high && EndsAt(m, fromBase.value)
    ensures fromHigh.Some? ==> fromHigh.value in m && high <= fromHigh.value
    ensures high in m <==> fromHigh == Some(high)
    ensures fromBase == fromHigh && (fromHigh.Some? ==> high < m[fromHigh.value].base)
      ==> FreeFor(m, base, high) && high !in m
  {
  }

  /** The next range, if it is to begin behind `high`. */
  ghost function BeginningBehind<T>(s: Stored<T>, high: Address): Stored<T>
    requires s.delta <= s.base <= high && high + 1 < TWO_64
  {
    Stored(high + 1, s.delta + (high + 1 - s.base), s.entry)
  }

  lemma NextInOrder<T>(m: map<Address, Stored<T>>, high: Address, next: Address)
    requires InOrder(m) && IsLowerBound(m, high, Some(next)) && next > high && m[next].base <= high
    ensures m[next].delta <= m[next].base && high + 1 < TWO_64
    ensures InOrder(m[next := BeginningBehind(m[next], high)])
  {
  }

  lemma NextShrunkRight<T>(m: map<Address, Stored<T>>, high: Address, next: Address)
    requires ShrunkRight(m, high) && next in m && m[next].delta <= m[next].base <= high < high + 1 < TWO_64
    ensures ShrunkRight(m[next := BeginningBehind(m[next], high)], high)
  {
    var m' := m[next := BeginningBehind(m[next], high)];
    forall k: Address | k in m' ensures ShrunkAt(m', k, high) {
      if k != next {
        assert ShrunkAt(m, k, high);
      }
    }
  }

  lemma NextReachesDown<T>(m: map<Address, Stored<T>>, high: Address, next: Address)
    requires InOrder(m) && IsLowerBound(m, high, Some(next)) && next > high && m[next].base <= high
    requires m[next].delta <= m[next].base && high + 1 < TWO_64
    ensures ReachesDown(m, high) && !ReachesDown(m[next := BeginningBehind(m[next], high)], high)
  {
    assert BeginsBy(m, next, high);
  }

  lemma SameOriginals<T>(m: map<Address, Stored<T>>, high: Address, next: Address)
    requires next in m && m[next].delta <= m[next].base <= high < high + 1 < TWO_64
    ensures Originals(m[next := BeginningBehind(m[next], high)]) == Originals(m)
  {
  }

  /** Moving the base of the next range behind `high`. */
  lemma ShrinkNext<T>(m: map<Address, Stored<T>>, high: Address, next: Address)
    requires SettledBut(m, high) && IsLowerBound(m, high, Some(next)) && next > high && m[next].base <= high
    ensures m[next].delta <= m[next].base && high + 1 < TWO_64
    ensures var m' := m[next := BeginningBehind(m[next], high)];
      && SettledBut(m', high) && Originals(m') == Originals(m)
      && ReachesDown(m, high) && !ReachesDown(m', high)
  {
    NextInOrder(m, high, next);
    hide InOrder, ShrunkRight, Originals, ReachesDown;
    NextShrunkRight(m, high, next);
    NextReachesDown(m, high, next);
    SameOriginals(m, high, next);
  }

  /** Whether a range is accepted, by what the code looks at. */
  lemma AcceptsByTwo<T>(m: map<Address, Stored<T>>, shrink: bool, base: Address, size: Address,
                        fromBase: Option<Address>, fromHigh: Option<Address>)
    requires SettledBut(m, base + size - 1) && 0 < size && base + size <= TWO_64
    requires IsLowerBound(m, base, fromBase) && IsLowerBound(m, base + size - 1, fromHigh)
    ensures Accepts(m, shrink, base, size)
      <==> if shrink then fromHigh != Some(base + size - 1)
           else fromBase == fromHigh && (fromHigh.Some? ==> base + size - 1 < m[fromHigh.value].base)
  {
    if !shrink {
      InOrderIsOk(m);
      FreeBetween(m, base, base + size - 1, fromBase, fromHigh);
    }
  }

  lemma RefusesImproper<T>(m: map<Address, Stored<T>>, shrink: bool, base: Address, size: Address)
    ensures size == 0 || base + size > TWO_64 ==> !Accepts(m, shrink, base, size)
  {
  }

  /** What becomes of the map when a range is accepted. */
  ghost predicate Grows<T>(m: map<Address, Stored<T>>, m': map<Address, Stored<T>>,
                           base: int, high: Address, entry: T)
  {
    Settled(m') && Originals(m') == Originals(m)[high := Original(base, entry)]
  }

  lemma SettledIsEnough<T>(m: map<Address, Stored<T>>, high: int)
    requires Settled(m)
    ensures SettledBut(m, high)
  {
    forall k: Address | k in m ensures ShrunkAt(m, k, high) {
      assert ShrunkAt(m, k, -1);
    }
  }

  lemma SameEnd<T>(m: map<Address, Stored<T>>, base: Address, size: Address, more: Address)
    requires more < size && base + size <= TWO_64
    ensures Accepts(m, true, base + more, size - more) <==> Accepts(m, true, base, size)
  {
  }

  lemma SameKeys<T>(m: map<Address, Stored<T>>, m': map<Address, Stored<T>>, base: Address, size: Address)
    requires m.Keys == m'.Keys
    ensures Accepts(m, true, base, size) <==> Accepts(m', true, base, size)
    ensures forall a :: EndsAt(m, a) <==> EndsAt(m', a)
  {
  }

  class RangeMap<T(0)> {
    var enableShrinkDown: bool
    var map_: map<Address, Stored<T>>

    ghost predicate Valid()
      reads this
    {
      Settled(map_)
    }

    constructor ()
      ensures Valid() && map_ == map[] && !enableShrinkDown
    {
      enableShrinkDown, map_ := false, map[];
    }

    method SetEnableShrinkDown(enable: bool)
      modifies this`enableShrinkDown
      ensures enableShrinkDown == enable
    {
      enableShrinkDown := enable;
    }

    /** Stores exactly the ranges accepted. Shrinking leaves the ranges as they were at first unchanged, and moves
        bases no further than `Settled` allows; without it nothing is moved. */
    method StoreRange(base: Address, size: Address, entry: T) returns (ok: bool)
      requires Valid()
      modifies `map_
      ensures Valid()
      ensures ok <==> Accepts(old(map_), enableShrinkDown, base, size)
      ensures ok ==> Grows(old(map_), map_, base, Plus(base, Minus(size, 1)), entry)
      ensures ok && !enableShrinkDown ==> map_ == old(map_)[Plus(base, Minus(size, 1)) := Stored(base, 0, entry)]
      ensures !ok ==> map_ == old(map_)
    {
      SettledIsEnough(map_, Plus(base, Minus(size, 1)));
      hide SettledBut, Accepts, Originals;
      ok := StoreRangeInternal(base, 0, size, entry);
    }

    method StoreRangeInternal(base: Address, delta: Address, size: Address, entry: T) returns (ok: bool)
      requires SettledBut(map_, Plus(base, Minus(size, 1)))
      requires delta <= base && (delta > 0 ==> enableShrinkDown && EndsAt(map_, base - 1))
      modifies `map_
      ensures ok <==> Accepts(old(map_), enableShrinkDown, base, size)
      ensures ok ==> Grows(old(map_), map_, base - delta, Plus(base, Minus(size, 1)), entry)
      ensures ok && !enableShrinkDown ==> map_ == old(map_)[Plus(base, Minus(size, 1)) := Stored(base, 0, entry)]
      ensures !ok ==> map_ == old(map_)
      decreases size, ReachesDown(map_, base + size - 1)
    {
      RefusesImproper(map_, enableShrinkDown, base, size);
      hide Accepts, SettledBut, IsLowerBound, ReachesDown, Originals, EndsAt, Settled, FreeFor;
      var high := Plus(base, Minus(size, 1));
      if size <= 0 || high < base {
        return false;
      }
      var iteratorBase := LowerBound(map_, base);
      var iteratorHigh := LowerBound(map_, high);
      EndsWithin(map_, base, high, iteratorBase, iteratorHigh);
      AcceptsByTwo(map_, enableShrinkDown, base, size, iteratorBase, iteratorHigh);
      if iteratorBase != iteratorHigh {
        if enableShrinkDown {
          // Others end within this range: it begins behind the first of them.
          var additionalDelta := iteratorBase.value - base + 1;
          SameEnd(map_, base, size, additionalDelta);
          ok := StoreRangeInternal(base + additionalDelta, delta + additionalDelta, size - additionalDelta, entry);
          return;
        }
        return false;
      }
      if iteratorHigh.Some? && map_[iteratorHigh.value].base <= high {
        if enableShrinkDown && iteratorHigh.value > high {
          // The range above begins within this one: that one is to begin behind it.
          ghost var before := map_;
          ShrinkNext(map_, high, iteratorHigh.value);
          var other := map_[iteratorHigh.value];
          var additionalDelta := high - other.base + 1;
          map_ := map_[iteratorHigh.value := Stored(other.base + additionalDelta, other.delta + additionalDelta,
                                                    other.entry)];
          SameKeys(before, map_, base, size);
          ok := StoreRangeInternal(base, delta, size, entry);
          return;
        }
        return false;
      }
      Settles(map_, base, delta, high, entry);
      map_ := map_[high := Stored(base, delta, entry)];
      ok := true;
    }

    /** The last address of the range that has `address`, if one has. */
    method RetrieveRange(address: Address) returns (high: Option<Address>)
      requires Valid()
      ensures high.Some? <==> exists h :: Covers(map_, h, address)
      ensures high.Some? ==> Covers(map_, high.value, address)
    {
      high := LowerBound(map_, address);
      FoundMeansCovered(map_, address, high);
      if high.Some? && address < map_[high.value].base {
        high := None;
      }
    }
  }
}
