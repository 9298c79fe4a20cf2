/** Sets of ranges in which any two are nested or disjoint, and how one level of a tree splits them. */
module RangeNesting {
  import opened Addresses
  import opened SymbolModule

  /** A range by its first and last address. */
  datatype Span = Span(base: Address, high: Address) {
    predicate Has(a: Address) {
      base <= a <= high
    }

    predicate Inside(t: Span) {
      t.base <= base && high <= t.high
    }

    predicate Apart(t: Span) {
      high < t.base || t.high < base
    }

    predicate Compatible(t: Span) {
      Inside(t) || t.Inside(this) || Apart(t)
    }
  }

  /** `s` may be added to `m`: it is not there yet and partially overlaps nothing that is. */
  ghost predicate Fits<E>(m: map<Span, E>, s: Span) {
    s !in m && forall t :: t in m ==> s.Compatible(t)
  }

  lemma FitsIsNew<E>(m: map<Span, E>, s: Span)
    ensures Fits(m, s) ==> s !in m
  {
  }

  /** The entry of the smallest stored range that holds `a`. */
  ghost predicate Answers<E>(m: map<Span, E>, a: Address, e: E) {
    exists s :: s in m && s.Has(a) && m[s] == e && forall t :: t in m && t.Has(a) ==> s.Inside(t)
  }

  /** `s` is the `i`-th of the ladder `spans`, or inside it. */
  ghost predicate InPart<E>(spans: seq<Span>, inner: seq<map<Span, E>>, i: int, s: Span)
    requires |spans| == |inner|
  {
    0 <= i < |spans| && (s == spans[i] || s in inner[i])
  }

  /** `t` belongs to `m` as part of the `i`-th of the ladder. */
  ghost predicate Belongs<E>(m: map<Span, E>, spans: seq<Span>, entries: seq<E>, inner: seq<map<Span, E>>,
                             i: int, t: Span)
    requires |spans| == |entries| == |inner| && 0 <= i < |spans|
  {
    && t.base <= t.high && t.Inside(spans[i]) && spans[i] !in inner[i] && t in m
    && (t == spans[i] ==> m[t] == entries[i]) && (t in inner[i] ==> m[t] == inner[i][t])
  }

  ghost predicate Rungs(spans: seq<Span>) {
    forall i, j :: 0 <= i < j < |spans| ==> spans[i].high < spans[j].base
  }

  ghost predicate PartsBelong<E>(m: map<Span, E>, spans: seq<Span>, entries: seq<E>, inner: seq<map<Span, E>>) {
    |spans| == |entries| == |inner|
    && forall i, t :: InPart(spans, inner, i, t) ==> Belongs(m, spans, entries, inner, i, t)
  }

  ghost predicate PartsCover<E>(m: map<Span, E>, spans: seq<Span>, inner: seq<map<Span, E>>) {
    |spans| == |inner| && forall t :: t in m ==> exists i :: InPart(spans, inner, i, t)
  }

  /** `m` consists of the ladder `spans` with its `entries` and, strictly inside each of these, `inner`. */
  ghost predicate Splits<E>(m: map<Span, E>, spans: seq<Span>, entries: seq<E>, inner: seq<map<Span, E>>) {
    Rungs(spans) && PartsBelong(m, spans, entries, inner) && PartsCover(m, spans, inner)
  }

  /** The iterator `std::map::lower_bound` returns, as an index: the first key not less than `k`. */
  function LowerBound(keys: seq<Address>, k: Address): (r: nat)
    requires forall i, j :: 0 <= i < j < |keys| ==> keys[i] < keys[j]
    ensures r <= |keys| && (forall i :: 0 <= i < r ==> keys[i] < k) && (r < |keys| ==> k <= keys[r])
  {
    if keys == [] then 0
    else if keys[|keys| - 1] < k then |keys|
    else LowerBound(keys[..|keys| - 1], k)
  }

  lemma PartsApart<E>(m: map<Span, E>, spans: seq<Span>, entries: seq<E>, inner: seq<map<Span, E>>,
                      i: int, j: int, s: Span, t: Span)
    requires Splits(m, spans, entries, inner) && 0 <= i < |spans| && InPart(spans, inner, j, t) && i != j
    requires s.Inside(spans[i])
    ensures s.Apart(t)
  {
  }

  /** A range strictly inside one of the ladder's concerns only what is inside that one. */
  lemma SplitsBelow<E>(m: map<Span, E>, spans: seq<Span>, entries: seq<E>, inner: seq<map<Span, E>>, i: nat, s: Span)
    requires Splits(m, spans, entries, inner) && i < |spans|
    requires s.base <= s.high && s.Inside(spans[i]) && s != spans[i]
    ensures Fits(m, s) <==> Fits(inner[i], s)
  {
    if Fits(m, s) {
      assert forall t :: t in inner[i] ==> InPart(spans, inner, i, t);
      assert s !in inner[i];
    }
    if Fits(inner[i], s) {
      forall t | t in m ensures s != t && s.Compatible(t) {
        var j :| InPart(spans, inner, j, t);
        if j != i { PartsApart(m, spans, entries, inner, i, j, s, t); }
      }
    }
  }

  lemma SplitsBelowStore<E>(m: map<Span, E>, spans: seq<Span>, entries: seq<E>, inner: seq<map<Span, E>>,
                            i: nat, s: Span, e: E)
    requires Splits(m, spans, entries, inner) && i < |spans|
    requires s.base <= s.high && s.Inside(spans[i]) && s != spans[i] && s !in m
    ensures Splits(m[s := e], spans, entries, inner[i := inner[i][s := e]])
  {
    var m', inner' := m[s := e], inner[i := inner[i][s := e]];
    forall j, t | InPart(spans, inner', j, t) ensures Belongs(m', spans, entries, inner', j, t) {
      assert InPart(spans, inner, j, spans[j]);
      assert InPart(spans, inner, j, t) || (j == i && t == s);
    }
    forall t | t in m' ensures exists j :: InPart(spans, inner', j, t) {
      if t == s {
        assert InPart(spans, inner', i, t);
      } else {
        var j :| InPart(spans, inner, j, t);
        assert InPart(spans, inner', j, t);
      }
    }
  }

  /** Partial overlap with one of the ladder. */
  lemma SplitsClash<E>(m: map<Span, E>, spans: seq<Span>, entries: seq<E>, inner: seq<map<Span, E>>, i: nat, s: Span)
    requires Splits(m, spans, entries, inner) && i < |spans| && !(s.Compatible(spans[i]) && s != spans[i])
    ensures !Fits(m, s)
  {
    assert InPart(spans, inner, i, spans[i]);
  }

  /** `s` properly contains the spans from `lo` to `hi` and is apart from the others. */
  ghost predicate Gathers(spans: seq<Span>, lo: nat, hi: nat, s: Span) {
    && lo <= hi <= |spans| && s.base <= s.high
    && (forall i :: 0 <= i < lo ==> spans[i].high < s.base)
    && (forall i :: lo <= i < hi ==> spans[i].Inside(s) && spans[i] != s)
    && (forall i :: hi <= i < |spans| ==> s.high < spans[i].base)
  }

  /** What moves under `s`. */
  ghost function Below<E>(m: map<Span, E>, s: Span): map<Span, E> {
    map t | t in m && t.Inside(s) :: m[t]
  }

  lemma GatherFits<E>(m: map<Span, E>, spans: seq<Span>, entries: seq<E>, inner: seq<map<Span, E>>,
                      lo: nat, hi: nat, s: Span)
    requires Splits(m, spans, entries, inner) && Gathers(spans, lo, hi, s)
    ensures Fits(m, s)
    ensures forall i, t :: InPart(spans, inner, i, t) ==> (t.Inside(s) <==> lo <= i < hi) && t != s
  {
    forall i, t | InPart(spans, inner, i, t) ensures (t.Inside(s) <==> lo <= i < hi) && t != s && s.Compatible(t) {
    }
  }

  /** The new node takes the gathered children... */
  lemma GatherInner<E>(m: map<Span, E>, spans: seq<Span>, entries: seq<E>, inner: seq<map<Span, E>>,
                       lo: nat, hi: nat, s: Span)
    requires Splits(m, spans, entries, inner) && Gathers(spans, lo, hi, s)
    ensures Splits(Below(m, s), spans[lo..hi], entries[lo..hi], inner[lo..hi])
  {
    GatherFits(m, spans, entries, inner, lo, hi, s);
    assert Rungs(spans[lo..hi]);
    assert PartsBelong(Below(m, s), spans[lo..hi], entries[lo..hi], inner[lo..hi]) by {
      hide PartsCover;
      forall i, t | InPart(spans[lo..hi], inner[lo..hi], i, t)
        ensures Belongs(Below(m, s), spans[lo..hi], entries[lo..hi], inner[lo..hi], i, t)
      {
        assert InPart(spans, inner, i + lo, t);
      }
    }
    assert PartsCover(Below(m, s), spans[lo..hi], inner[lo..hi]) by {
      hide PartsBelong;
      forall t | t in Below(m, s) ensures exists i :: InPart(spans[lo..hi], inner[lo..hi], i, t) {
        var j :| InPart(spans, inner, j, t);
        assert InPart(spans[lo..hi], inner[lo..hi], j - lo, t);
      }
    }
  }

  /** `s` with the elements from `lo` to `hi` replaced by `x`. */
  function Splice<T>(s: seq<T>, lo: nat, hi: nat, x: T): (r: seq<T>)
    requires lo <= hi <= |s|
    ensures |r| == |s| - (hi - lo) + 1 && r[lo] == x
    ensures forall i :: 0 <= i < lo ==> r[i] == s[i]
    ensures forall i :: lo < i < |r| ==> r[i] == s[i - lo - 1 + hi]
  {
    s[..lo] + [x] + s[hi..]
  }

  lemma GatherOuterBelongs<E>(m: map<Span, E>, spans: seq<Span>, entries: seq<E>, inner: seq<map<Span, E>>,
                              lo: nat, hi: nat, s: Span, e: E, i: int, t: Span)
    requires Splits(m, spans, entries, inner) && Gathers(spans, lo, hi, s)
    requires InPart(Splice(spans, lo, hi, s), Splice(inner, lo, hi, Below(m, s)), i, t)
    ensures Belongs(m[s := e], Splice(spans, lo, hi, s), Splice(entries, lo, hi, e),
                    Splice(inner, lo, hi, Below(m, s)), i, t)
  {
    hide Splice;
    GatherFits(m, spans, entries, inner, lo, hi, s);
    if i == lo {
      if t != s {
        var j :| InPart(spans, inner, j, t);
      }
    } else {
      assert InPart(spans, inner, if i < lo then i else i - lo - 1 + hi, t);
    }
  }

  lemma Relocate<E>(spans: seq<Span>, inner: seq<map<Span, E>>, lo: nat, hi: nat, s: Span, below: map<Span, E>,
                    j: int, t: Span) returns (i: int)
    requires |spans| == |inner| && lo <= hi <= |spans| && InPart(spans, inner, j, t)
    requires lo <= j < hi ==> t in below
    ensures InPart(Splice(spans, lo, hi, s), Splice(inner, lo, hi, below), i, t)
  {
    hide Splice;
    i := if j < lo then j else if j < hi then lo else j - hi + lo + 1;
  }

  /** ... and takes their place. */
  lemma GatherOuter<E>(m: map<Span, E>, spans: seq<Span>, entries: seq<E>, inner: seq<map<Span, E>>,
                       lo: nat, hi: nat, s: Span, e: E)
    requires Splits(m, spans, entries, inner) && Gathers(spans, lo, hi, s)
    ensures Splits(m[s := e], Splice(spans, lo, hi, s), Splice(entries, lo, hi, e), Splice(inner, lo, hi, Below(m, s)))
  {
    hide Splice;
    var m', spans', inner' := m[s := e], Splice(spans, lo, hi, s), Splice(inner, lo, hi, Below(m, s));
    assert Rungs(spans');
    assert PartsBelong(m', spans', Splice(entries, lo, hi, e), inner') by {
      forall i, t | InPart(spans', inner', i, t) {
        GatherOuterBelongs(m, spans, entries, inner, lo, hi, s, e, i, t);
      }
    }
    GatherFits(m, spans, entries, inner, lo, hi, s);
    assert PartsCover(m', spans', inner') by {
      hide PartsBelong;
      forall t | t in m' ensures exists i :: InPart(spans', inner', i, t) {
        if t == s {
          assert InPart(spans', inner', lo, t);
        } else {
          var j :| InPart(spans, inner, j, t);
          var i := Relocate(spans, inner, lo, hi, s, Below(m, s), j, t);
        }
      }
    }
  }

  /** Who holds an address: one of the ladder at most... */
  lemma SplitsHolders<E>(m: map<Span, E>, spans: seq<Span>, entries: seq<E>, inner: seq<map<Span, E>>,
                         i: nat, a: Address, t: Span)
    requires Splits(m, spans, entries, inner) && i < |spans| && spans[i].Has(a) && t in m && t.Has(a)
    ensures InPart(spans, inner, i, t) && t.Inside(spans[i])
  {
    var j :| InPart(spans, inner, j, t);
  }

  /** ... and inside it the inner answer comes first. */
  lemma SplitsAnswer<E>(m: map<Span, E>, spans: seq<Span>, entries: seq<E>, inner: seq<map<Span, E>>,
                        i: nat, a: Address, e: E)
    requires Splits(m, spans, entries, inner) && i < |spans| && spans[i].Has(a)
    requires Answers(inner[i], a, e) || ((forall t :: t in inner[i] ==> !t.Has(a)) && e == entries[i])
    ensures Answers(m, a, e)
  {
    var s := spans[i];
    if Answers(inner[i], a, e) {
      s :| s in inner[i] && s.Has(a) && inner[i][s] == e && forall t :: t in inner[i] && t.Has(a) ==> s.Inside(t);
    }
    assert InPart(spans, inner, i, s);
    forall t | t in m && t.Has(a) ensures s.Inside(t) {
      SplitsHolders(m, spans, entries, inner, i, a, t);
    }
  }

  // ----- what the two iterators of an insertion tell -----

  ghost predicate Located(spans: seq<Span>, lo: nat, hi: nat, s: Span) {
    && Rungs(spans) && (forall i :: 0 <= i < |spans| ==> spans[i].base <= spans[i].high)
    && s.base <= s.high && lo <= |spans| && hi <= |spans|
    && (forall i :: 0 <= i < lo ==> spans[i].high < s.base) && (lo < |spans| ==> s.base <= spans[lo].high)
    && (forall i :: 0 <= i < hi ==> spans[i].high < s.high) && (hi < |spans| ==> s.high <= spans[hi].high)
  }

  predicate GoesBelow(spans: seq<Span>, lo: nat, hi: nat, s: Span) {
    lo == hi && lo < |spans| && s.base >= spans[lo].base
  }

  predicate ContainsHigh(spans: seq<Span>, hi: nat, s: Span) {
    hi < |spans| && s.high >= spans[hi].base
  }

  predicate Overlaps(spans: seq<Span>, lo: nat, hi: nat, s: Span)
    requires hi <= |spans|
  {
    (lo < |spans| && s.base > spans[lo].base) || (ContainsHigh(spans, hi, s) && s.high < spans[hi].high)
  }

  lemma LocatedBelow(spans: seq<Span>, lo: nat, hi: nat, s: Span)
    requires Located(spans, lo, hi, s) && GoesBelow(spans, lo, hi, s)
    ensures s.Inside(spans[lo])
  {
  }

  lemma LocatedClash(spans: seq<Span>, lo: nat, hi: nat, s: Span) returns (i: nat)
    requires Located(spans, lo, hi, s) && !GoesBelow(spans, lo, hi, s) && Overlaps(spans, lo, hi, s)
    ensures i < |spans| && !s.Compatible(spans[i])
  {
    i := if lo < |spans| && s.base > spans[lo].base then lo else hi;
  }

  lemma LocatedGathers(spans: seq<Span>, lo: nat, hi: nat, s: Span)
    requires Located(spans, lo, hi, s) && !GoesBelow(spans, lo, hi, s) && !Overlaps(spans, lo, hi, s)
    ensures Gathers(spans, lo, if ContainsHigh(spans, hi, s) then hi + 1 else hi, s)
  {
    assert lo <= hi;
  }

  // ----- retrieval -----

  lemma SplitsNobody<E>(m: map<Span, E>, spans: seq<Span>, entries: seq<E>, inner: seq<map<Span, E>>, a: Address)
    requires Splits(m, spans, entries, inner) && forall i :: 0 <= i < |spans| ==> !spans[i].Has(a)
    ensures forall t :: t in m ==> !t.Has(a)
  {
    forall t | t in m ensures !t.Has(a) {
      var i :| InPart(spans, inner, i, t);
    }
  }

  lemma AnswerIsHeld<E>(m: map<Span, E>, a: Address, e: E)
    ensures Answers(m, a, e) ==> exists s :: s in m && s.Has(a)
  {
  }

  /** There is at most one answer. */
  lemma AnswerIsUnique<E>(m: map<Span, E>, a: Address, e: E, e': E)
    requires Answers(m, a, e) && Answers(m, a, e')
    ensures e == e'
  {
    var s :| s in m && s.Has(a) && m[s] == e && forall t :: t in m && t.Has(a) ==> s.Inside(t);
    var s' :| s' in m && s'.Has(a) && m[s'] == e' && forall t :: t in m && t.Has(a) ==> s'.Inside(t);
    assert s.Inside(s') && s'.Inside(s);
  }

  // ----- whole histories of insertions -----

  datatype Item<E> = Item(base: Address, size: Address, entry: E) {
    predicate Proper() {
      0 < size && base + size <= TWO_64
    }

    function Bytes(): Span
      requires Proper()
    {
      Span(base, base + size - 1)
    }
  }

  /** Proper ranges, no two the same, any two nested or disjoint. */
  ghost predicate Nesting<E>(items: seq<Item<E>>)
    ensures Nesting(items) ==> forall x :: x in items ==> x.Proper()
  {
    && Distinct(items) && (forall x :: x in items ==> x.Proper())
    && forall x, y :: x in items && y in items && x != y ==> x.Bytes() != y.Bytes() && x.Bytes().Compatible(y.Bytes())
  }

  ghost function MapOf<E>(items: seq<Item<E>>): map<Span, E>
    requires forall x :: x in items ==> x.Proper()
  {
    if items == [] then map[] else
    var last := items[|items| - 1];
    MapOf(items[..|items| - 1])[last.Bytes() := last.entry]
  }

  predicate IsSpanOf<E>(x: Item<E>, s: Span) {
    x.Proper() && x.Bytes() == s
  }

  ghost predicate SpanOfSome<E>(items: seq<Item<E>>, s: Span) {
    exists x :: x in items && IsSpanOf(x, s)
  }

  lemma SpanIsOf<E>(items: seq<Item<E>>, s: Span) returns (x: Item<E>)
    requires SpanOfSome(items, s)
    ensures x in items && IsSpanOf(x, s)
  {
    x :| x in items && IsSpanOf(x, s);
  }

  lemma {:induction false} MapOfItems<E>(items: seq<Item<E>>)
    requires Nesting(items)
    ensures forall x :: x in items ==> x.Bytes() in MapOf(items) && MapOf(items)[x.Bytes()] == x.entry
    ensures forall s :: s in MapOf(items) ==> SpanOfSome(items, s)
  {
    if items != [] {
      var n := |items| - 1;
      assert items == items[..n] + [items[n]];
      MapOfItems(items[..n]);
      forall s | s in MapOf(items) ensures SpanOfSome(items, s) {
        if s == items[n].Bytes() {
          assert IsSpanOf(items[n], s);
        } else {
          var x := SpanIsOf(items[..n], s);
          assert IsSpanOf(x, s);
        }
      }
    }
  }

  lemma NestingPrefix<E>(items: seq<Item<E>>, n: nat)
    requires Nesting(items) && n <= |items|
    ensures Nesting(items[..n])
    ensures n < |items| ==> items[n] !in items[..n]
  {
  }

  lemma NextItemFits<E>(items: seq<Item<E>>, n: nat)
    requires Nesting(items) && n < |items|
    ensures Nesting(items[..n]) && Nesting(items[..n + 1]) && Fits(MapOf(items[..n]), items[n].Bytes())
    ensures MapOf(items[..n + 1]) == MapOf(items[..n])[items[n].Bytes() := items[n].entry]
  {
    NestingPrefix(items, n);
    NestingPrefix(items, n + 1);
    assert items[..n + 1][..n] == items[..n];
    MapOfItems(items[..n]);
    forall t | t in MapOf(items[..n]) ensures t != items[n].Bytes() && items[n].Bytes().Compatible(t) {
      var x := SpanIsOf(items[..n], t);
      assert x in items && items[n] in items;
    }
  }

  /** The outcome of a history does not depend on its order. */
  lemma AnyOrderSameMap<E>(items: seq<Item<E>>, items': seq<Item<E>>)
    requires Nesting(items) && multiset(items) == multiset(items')
    ensures Nesting(items') && MapOf(items) == MapOf(items')
  {
    SameElements(items, items');
    DistinctPermutation(items, items');
    MapOfItems(items);
    MapOfItems(items');
    var m, m' := MapOf(items), MapOf(items');
    forall s | s in m ensures s in m' && m'[s] == m[s] {
      var x := SpanIsOf(items, s);
    }
    forall s | s in m' ensures s in m {
      var x := SpanIsOf(items', s);
    }
  }
}
