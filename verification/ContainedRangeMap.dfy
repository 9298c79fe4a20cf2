/** A tree of nested ranges, each node's children in a map keyed by their high addresses. */
module ContainedRangeMap {
  import opened Addresses
  import opened RangeNesting
  import opened SymbolModule

  ghost function SpansOf<E>(highs: seq<Address>, nodes: seq<ContainedRangeMap<E>>): seq<Span>
    requires |highs| == |nodes|
  {
    seq(|nodes|, i requires 0 <= i < |nodes| => Span(nodes[i].base, highs[i]))
  }

  ghost function EntriesOf<E>(nodes: seq<ContainedRangeMap<E>>): seq<E> {
    seq(|nodes|, i requires 0 <= i < |nodes| => nodes[i].entry)
  }

  /** A node. `std::map` is two sequences, the keys in ascending order and the values; no map at all
      is an empty map. The root's `base` and `entry` are never used. */
  class ContainedRangeMap<E> {
    const base: Address
    const entry: E
    var highs: seq<Address>
    var children: seq<ContainedRangeMap<E>>

    ghost var stored: map<Span, E>  // everything below this node
    ghost var inner: seq<map<Span, E>>  // everything below each child
    ghost var owns: seq<set<object>>  // the objects of each child's subtree
    ghost var repr: set<object>

    ghost function Spans(): seq<Span>
      requires |highs| == |children|
      reads this
    {
      SpansOf(highs, children)
    }

    /** Each node owns its subtree: no node is shared, and what a child stores is on record here. */
    ghost predicate Tree()
      reads this, repr
      ensures Tree() ==> this in repr && |highs| == |children| == |inner| == |owns|
      decreases repr, 0
    {
      && this in repr && |highs| == |children| == |inner| == |owns|
      && (forall i :: 0 <= i < |children| ==>
            children[i] in owns[i] && this !in owns[i] && owns[i] <= repr && children[i].IsChild(owns[i], inner[i]))
      && Scattered(owns)
    }

    /** As its parent knows it: a valid subtree made of the objects `own` that stores `below`. */
    ghost predicate IsChild(own: set<object>, below: map<Span, E>)
      reads this, own
      ensures IsChild(own, below) ==> this in own
      decreases own, 2
    {
      this in own && repr == own && Valid() && stored == below
    }

    ghost predicate Valid()
      reads this, repr
      ensures Valid() ==> this in repr && |highs| == |children| == |inner| == |owns|
      decreases repr, 1
    {
      Tree() && Splits(stored, Spans(), EntriesOf(children), inner)
    }

    /** The root: `blank` stands for the default-constructed entry. */
    constructor Root(blank: E)
      ensures Valid() && fresh(repr) && stored == map[]
    {
      base, entry, highs, children := 0, blank, [], [];
      stored, inner, owns, repr := map[], [], [], {this};
    }

    /** A new child that takes over the children `from`..`to` of `parent`, and what they own. */
    constructor Adopt(base: Address, entry: E, parent: ContainedRangeMap<E>, from: nat, to: nat,
                      ghost below: map<Span, E>, ghost owned: set<object>)
      requires parent.Tree() && from <= to <= |parent.children|
      requires Splits(below, parent.Spans()[from..to], EntriesOf(parent.children)[from..to], parent.inner[from..to])
      requires forall i :: from <= i < to ==> parent.owns[i] <= owned
      ensures Valid() && this.base == base && this.entry == entry && stored == below && repr == {this} + owned
    {
      this.base, this.entry := base, entry;
      highs, children := parent.highs[from..to], parent.children[from..to];
      stored, inner, owns, repr := below, parent.inner[from..to], parent.owns[from..to], {this} + owned;
      new;
      assert Spans() == parent.Spans()[from..to];
      assert EntriesOf(children) == EntriesOf(parent.children)[from..to];
      assert forall i :: 0 <= i < |children| ==>
        children[i] == parent.children[from + i] && owns[i] == parent.owns[from + i];
    }

    lemma HighsAscend()
      requires Valid()
      ensures forall i :: 0 <= i < |children| ==> Spans()[i].base <= Spans()[i].high
      ensures forall i, j :: 0 <= i < j < |highs| ==> highs[i] < children[j].base && highs[i] < highs[j]
    {
      var spans := Spans();
      forall i | 0 <= i < |spans| ensures spans[i].base <= spans[i].high {
        assert InPart(spans, inner, i, spans[i]);
      }
      forall i, j | 0 <= i < j < |highs| ensures highs[i] < children[j].base && highs[i] < highs[j] {
        assert spans[i].high < spans[j].base && InPart(spans, inner, j, spans[j]);
      }
    }

    /** The two iterators of an insertion. */
    method Locate(s: Span) returns (lo: nat, hi: nat)
      requires Valid() && s.base <= s.high
      ensures lo <= |children| && hi <= |children| && Located(Spans(), lo, hi, s)
    {
      HighsAscend();
      lo, hi := LowerBound(highs, s.base), LowerBound(highs, s.high);
    }

    /** The most specific descendant range that holds the address. */
    method RetrieveRange(address: Address) returns (found: Option<E>)
      requires Valid()
      ensures found.Some? <==> exists s :: s in stored && s.Has(address)
      ensures found.Some? ==> Answers(stored, address, found.value)
      decreases repr
    {
      HighsAscend();
      ghost var spans, entries := Spans(), EntriesOf(children);
      hide Splits, Answers;
      var i := LowerBound(highs, address);
      if i == |children| || address < children[i].base {
        forall k | 0 <= k < |spans| ensures !spans[k].Has(address) {
          assert i < |children| && i < k ==> highs[i] < children[k].base;
        }
        SplitsNobody(stored, spans, entries, inner, address);
        return None;
      }
      // This child has the address; one below it may have it too.
      assert children[i].IsChild(owns[i], inner[i]);
      found := children[i].RetrieveRange(address);
      if found.None? {
        found := Some(children[i].entry);
      }
      SplitsAnswer(stored, spans, entries, inner, i, address, found.value);
      AnswerIsHeld(stored, address, found.value);
    }

    /** Remove all children. */
    method Clear()
      requires Valid()
      modifies this
      ensures Valid() && repr == {this} && stored == map[]
    {
      highs, children := [], [];
      stored, inner, owns, repr := map[], [], [], {this};
    }

    /** Store a range below this node. */
    method StoreRange(b: Address, size: Address, e: E) returns (ok: bool)
      requires Valid()
      modifies repr
      ensures Valid() && fresh(repr - old(repr))
      ensures ok <==> 0 < size && b + size - 1 < TWO_64 && Fits(old(stored), Span(b, b + size - 1))
      ensures stored == if ok then old(stored)[Span(b, b + size - 1) := e] else old(stored)
      decreases repr, 2
    {
      hide Splits, Fits, Gathers, Located, LowerBound;
      var high := Minus(Plus(b, size), 1);
      // An empty range has no last address, and a wrapping one none behind its base.
      if size <= 0 || high < b {
        return false;
      }
      ghost var s, spans, entries := Span(b, high), Spans(), EntriesOf(children);
      var lo, hi := Locate(Span(b, high));

      if lo == hi && lo != |children| && b >= children[lo].base {
        // One child takes it in whole.
        LocatedBelow(spans, lo, hi, s);
        if children[lo].base == b && highs[lo] == high {
          SplitsClash(stored, spans, entries, inner, lo, s);
          return false;
        }
        ok := StoreInChild(lo, b, size, e);
        return;
      }

      var containsHigh := hi != |children| && high >= children[hi].base;
      // The children at both ends must lie inside the range or outside it.
      if (lo != |children| && b > children[lo].base) || (containsHigh && high < highs[hi]) {
        ghost var i := LocatedClash(spans, lo, hi, s);
        SplitsClash(stored, spans, entries, inner, i, s);
        return false;
      }
      LocatedGathers(spans, lo, hi, s);
      if containsHigh {
        hi := hi + 1;
      }
      GatherFits(stored, spans, entries, inner, lo, hi, s);
      Reparent(lo, hi, b, high, e);
      ok := true;
    }

    /** Let child `i` decide. */
    method StoreInChild(i: nat, b: Address, size: Address, e: E) returns (ok: bool)
      requires Valid() && i < |children| && 0 < size && b + size - 1 < TWO_64
      requires var s := Span(b, b + size - 1); s.Inside(Spans()[i]) && s != Spans()[i]
      modifies repr
      ensures Valid() && fresh(repr - old(repr))
      ensures ok <==> Fits(old(stored), Span(b, b + size - 1))
      ensures stored == if ok then old(stored)[Span(b, b + size - 1) := e] else old(stored)
      decreases repr, 1
    {
      hide Splits, Fits, Tree;
      ghost var s, spans, entries := Span(b, b + size - 1), Spans(), EntriesOf(children);
      SplitsBelow(stored, spans, entries, inner, i, s);
      FitsIsNew(stored, s);
      if Fits(stored, s) { SplitsBelowStore(stored, spans, entries, inner, i, s, e); }
      ok := StoreInTree(i, b, size, e, stored[s := e]);
    }

    method StoreInTree(i: nat, b: Address, size: Address, e: E, ghost grown: map<Span, E>) returns (ok: bool)
      requires Tree() && i < |children| && 0 < size && b + size - 1 < TWO_64
      modifies repr
      ensures Tree() && fresh(repr - old(repr))
      ensures highs == old(highs) && children == old(children)
      ensures stored == if ok then grown else old(stored)
      ensures ok <==> Fits(old(inner)[i], Span(b, b + size - 1))
      ensures inner == if ok then old(inner)[i := old(inner)[i][Span(b, b + size - 1) := e]] else old(inner)
      decreases repr, 0
    {
      hide Valid, IsChild, Fits, Scattered;
      ghost var own, below;
      ScatteredElsewhere(owns, i);
      ok, own, below := children[i].StoreAsChild(b, size, e, owns[i], inner[i]);
      UpdateScattered(owns, i, own);
      stored, inner := if ok then grown else stored, inner[i := below];
      owns, repr := owns[i := own], repr + own;
    }

    method StoreAsChild(b: Address, size: Address, e: E, ghost own: set<object>, ghost below: map<Span, E>)
      returns (ok: bool, ghost own': set<object>, ghost below': map<Span, E>)
      requires IsChild(own, below) && 0 < size && b + size - 1 < TWO_64
      modifies own
      ensures IsChild(own', below') && fresh(own' - own)
      ensures ok <==> Fits(below, Span(b, b + size - 1))
      ensures below' == if ok then below[Span(b, b + size - 1) := e] else below
      decreases own, 4
    {
      hide Fits;
      ok := StoreRange(b, size, e);
      own', below' := repr, stored;
    }

    /** The new range becomes a child, and the children it contains become its own. */
    method Reparent(lo: nat, hi: nat, b: Address, high: Address, e: E)
      requires Valid() && lo <= hi <= |children| && Gathers(Spans(), lo, hi, Span(b, high))
      modifies this
      ensures Valid() && fresh(repr - old(repr))
      ensures stored == old(stored)[Span(b, high) := e]
    {
      hide Splits, Gathers, Tree;
      ghost var s, spans, entries := Span(b, high), Spans(), EntriesOf(children);
      GatherInner(stored, spans, entries, inner, lo, hi, s);
      GatherOuter(stored, spans, entries, inner, lo, hi, s, e);
      ghost var wasHighs, was := highs, children;
      var child := NewChild(lo, hi, b, e, Below(stored, s));
      SpliceAdoptable(lo, hi, child, child.repr, Below(stored, s));
      Install(Splice(highs, lo, hi, high), Splice(children, lo, hi, child), Splice(owns, lo, hi, child.repr),
              Splice(inner, lo, hi, Below(stored, s)), stored[s := e], repr + child.repr);
      SpliceSpans(wasHighs, was, lo, hi, high, child);
    }

    /** A new node that takes over the children `lo`..`hi` and shares nothing with the others. */
    method NewChild(lo: nat, hi: nat, b: Address, e: E, ghost below: map<Span, E>) returns (child: ContainedRangeMap<E>)
      requires Tree() && lo <= hi <= |children|
      requires Splits(below, Spans()[lo..hi], EntriesOf(children)[lo..hi], inner[lo..hi])
      ensures child.IsChild(child.repr, below) && child.base == b && child.entry == e
      ensures fresh(child.repr - repr) && this !in child.repr
      ensures forall k :: 0 <= k < |owns| && !(lo <= k < hi) ==> owns[k] !! child.repr
    {
      hide Valid, Splits, SpansOf, EntriesOf;
      ghost var owned := set i, o | lo <= i < hi && o in owns[i] :: o;
      forall k | 0 <= k < |owns| && !(lo <= k < hi) ensures owns[k] !! owned {
        assert forall i :: lo <= i < hi ==> owns[k] !! owns[i];
      }
      child := new ContainedRangeMap.Adopt(b, e, this, lo, hi, below, owned);
    }

    /** What `Tree` needs to know of prospective children. */
    ghost predicate Adoptable(nodes: seq<ContainedRangeMap<E>>, own: seq<set<object>>, below: seq<map<Span, E>>,
                              all: set<object>)
      reads nodes, set i, o | 0 <= i < |own| && o in own[i] :: o
    {
      && |nodes| == |own| == |below| && this in all && Scattered(own)
      && forall i :: 0 <= i < |nodes| ==>
           nodes[i] in own[i] && this !in own[i] && own[i] <= all && nodes[i].IsChild(own[i], below[i])
    }

    lemma SpliceAdoptable(lo: nat, hi: nat, child: ContainedRangeMap<E>, own: set<object>, below: map<Span, E>)
      requires Tree() && lo <= hi <= |children|
      requires child.IsChild(own, below) && this !in own
      requires forall k :: 0 <= k < |owns| && !(lo <= k < hi) ==> owns[k] !! own
      ensures Adoptable(Splice(children, lo, hi, child), Splice(owns, lo, hi, own),
                        Splice(inner, lo, hi, below), repr + own)
    {
      hide Splice, Scattered, IsChild;
      SpliceScattered(owns, lo, hi, own);
    }

    method Install(newHighs: seq<Address>, newChildren: seq<ContainedRangeMap<E>>, ghost newOwns: seq<set<object>>,
                   ghost newInner: seq<map<Span, E>>, ghost grown: map<Span, E>, ghost all: set<object>)
      requires |newHighs| == |newChildren| && Adoptable(newChildren, newOwns, newInner, all)
      modifies this
      ensures Tree() && repr == all && stored == grown
      ensures highs == newHighs && children == newChildren && inner == newInner
    {
      hide IsChild, Scattered;
      highs, children, owns, inner, stored, repr := newHighs, newChildren, newOwns, newInner, grown, all;
    }
  }

  /** Every history of ranges that are pairwise nested or disjoint is accepted in full. */
  method StoreAll<E>(root: ContainedRangeMap<E>, items: seq<Item<E>>) returns (allAccepted: bool)
    requires root.Valid() && root.stored == map[] && Nesting(items)
    modifies root.repr
    ensures allAccepted && root.Valid() && root.stored == MapOf(items)
    ensures fresh(root.repr - old(root.repr))
  {
    hide Nesting, Fits, MapOf, ContainedRangeMap.Valid;
    NothingStored(items);
    allAccepted := true;
    for n := 0 to |items|
      invariant allAccepted && root.Valid() && fresh(root.repr - old(root.repr))
      invariant root.stored == MapOf(items[..n])
    {
      assert items[n] in items;
      NextItemFits(items, n);
      var ok := root.StoreRange(items[n].base, items[n].size, items[n].entry);
      allAccepted := allAccepted && ok;
    }
    assert items[..|items|] == items;
  }

  method Build<E>(items: seq<Item<E>>, blank: E) returns (root: ContainedRangeMap<E>)
    requires Nesting(items)
    ensures root.Valid() && fresh(root.repr) && root.stored == MapOf(items)
  {
    hide Nesting, MapOf, ContainedRangeMap.Valid;
    root := new ContainedRangeMap<E>.Root(blank);
    var allAccepted := StoreAll(root, items);
  }

  ghost predicate HasItemAt<E>(items: seq<Item<E>>, address: Address)
    requires forall x :: x in items ==> x.Proper()
  {
    exists x :: x in items && x.Bytes().Has(address)
  }

  method Ask<E>(root: ContainedRangeMap<E>, items: seq<Item<E>>, address: Address) returns (found: Option<E>)
    requires root.Valid() && Nesting(items) && root.stored == MapOf(items)
    ensures found.Some? <==> HasItemAt(items, address)
    ensures found.Some? ==> Answers(MapOf(items), address, found.value)
  {
    SomeItemHas(items, address);
    hide Nesting, MapOf, ContainedRangeMap.Valid, Answers, HasItemAt;
    found := root.RetrieveRange(address);
  }

  /** A client with two trees: inserted in any two orders, the same ranges answer every query alike. */
  method AskBoth<E>(items: seq<Item<E>>, items': seq<Item<E>>, blank: E, address: Address)
    returns (found: Option<E>, found': Option<E>)
    requires Nesting(items) && multiset(items) == multiset(items')
    ensures found == found'
    ensures found.Some? <==> HasItemAt(items, address)
    ensures found.Some? ==> Answers(MapOf(items), address, found.value)
  {
    hide Nesting, MapOf, ContainedRangeMap.Valid, Answers, HasItemAt;
    AnyOrderSameMap(items, items');
    var root := Build(items, blank);
    var root' := Build(items', blank);
    found := Ask(root, items, address);
    found' := Ask(root', items, address);
    if found.Some? {
      AnswerIsUnique(MapOf(items), address, found.value, found'.value);
    }
  }

  lemma SomeItemHas<E>(items: seq<Item<E>>, address: Address)
    requires Nesting(items)
    ensures (exists s :: s in MapOf(items) && s.Has(address)) <==> HasItemAt(items, address)
  {
    MapOfItems(items);
    hide Nesting, MapOf;
    if s :| s in MapOf(items) && s.Has(address) {
      var x := SpanIsOf(items, s);
    }
  }

  lemma NothingStored<E>(items: seq<Item<E>>)
    requires Nesting(items)
    ensures MapOf(items[..0]) == map[]
  {
  }

  ghost predicate Scattered(s: seq<set<object>>) {
    forall i, j :: 0 <= i < j < |s| ==> s[i] !! s[j]
  }

  lemma ScatteredElsewhere(s: seq<set<object>>, i: nat)
    requires Scattered(s) && i < |s|
    ensures forall j :: 0 <= j < |s| && j != i ==> s[j] !! s[i]
  {
  }

  lemma UpdateScattered(s: seq<set<object>>, i: nat, x: set<object>)
    requires Scattered(s) && i < |s| && forall j :: 0 <= j < |s| && j != i ==> s[j] !! x
    ensures Scattered(s[i := x])
  {
  }

  lemma SpliceScattered(s: seq<set<object>>, lo: nat, hi: nat, x: set<object>)
    requires Scattered(s) && lo <= hi <= |s|
    requires forall k :: 0 <= k < |s| && !(lo <= k < hi) ==> s[k] !! x
    ensures Scattered(Splice(s, lo, hi, x))
  {
  }

  lemma SpliceSpans<E>(highs: seq<Address>, nodes: seq<ContainedRangeMap<E>>, lo: nat, hi: nat,
                       high: Address, c: ContainedRangeMap<E>)
    requires |highs| == |nodes| && lo <= hi <= |nodes|
    ensures SpansOf(Splice(highs, lo, hi, high), Splice(nodes, lo, hi, c))
         == Splice(SpansOf(highs, nodes), lo, hi, Span(c.base, high))
    ensures EntriesOf(Splice(nodes, lo, hi, c)) == Splice(EntriesOf(nodes), lo, hi, c.entry)
  {
  }
}
