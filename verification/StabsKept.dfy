/** What a trace of calls says of boundaries and functions, by the positions of its events. */
module StabsKept {
  import opened Addresses
  import opened StabsProtocol
  import opened StabsToModule
  import opened SymbolModule

  lemma OneMoreGathered(f: Format, trace: seq<Event>)
    requires trace != []
    ensures var n := |trace| - 1; Gather(f, trace) == GatherOne(f, Gather(f, trace[..n]), trace[n])
  {
  }

  /** The event stands for a boundary at `a`. */
  predicate Marks(e: Event, a: Address) {
    match e
    case StartCompilationUnit(_, b, _) => a == b
    case StartFunction(_, b) => a == b
    case EndFunction(b) => a == b && a != 0
    case EndCompilationUnit(b) => a == b && a != 0
    case LineAt(_, _, _) => false
  }

  lemma OneMoreMark(trace: seq<Event>, e: Event, a: Address)
    ensures (exists i :: 0 <= i < |trace| + 1 && Marks((trace + [e])[i], a))
      <==> (exists i :: 0 <= i < |trace| && Marks(trace[i], a)) || Marks(e, a)
  {
    hide Marks;
    var more := trace + [e];
    assert more[|trace|] == e;
    if i :| 0 <= i < |trace| && Marks(trace[i], a) {
      assert Marks(more[i], a);
    }
    if i :| 0 <= i < |trace| + 1 && Marks(more[i], a) && i < |trace| {
      assert Marks(trace[i], a);
    }
  }

  lemma OneMoreBoundary(f: Format, g: Gathered, e: Event, a: Address)
    ensures a in GatherOne(f, g, e).boundaries <==> a in g.boundaries || Marks(e, a)
  {
    hide Format.TextAt;
  }

  /** The boundaries are the addresses at which units and functions are said to start, and those other than zero
      at which they are said to end. */
  lemma {:induction false} BoundariesExactly(f: Format, trace: seq<Event>, a: Address)
    ensures a in Gather(f, trace).boundaries <==> exists i :: 0 <= i < |trace| && Marks(trace[i], a)
  {
    if trace != [] {
      var n := |trace| - 1;
      BoundariesExactly(f, trace[..n], a);
      OneMoreGathered(f, trace);
      hide Gather, GatherOne, Marks;
      OneMoreBoundary(f, Gather(f, trace[..n]), trace[n], a);
      OneMoreMark(trace[..n], trace[n], a);
      assert trace == trace[..n] + [trace[n]];
    }
  }

  /** The last unit started before position `n` was started at position `u`. */
  ghost predicate UnitAt(trace: seq<Event>, u: nat, n: nat) {
    && u < n <= |trace| && trace[u].StartCompilationUnit?
    && forall x :: u < x < n ==> !trace[x].StartCompilationUnit?
  }

  ghost predicate LinesAt(f: Format, trace: seq<Event>, i: nat, j: nat, lines: seq<Line>)
    requires i < j <= |trace|
  {
    |lines| == j - i - 1 && forall x :: 0 <= x < |lines| ==> IsLine(f, trace[i + 1 + x], lines[x])
  }

  predicate IsLine(f: Format, e: Event, l: Line) {
    e.LineAt? && l == Line(e.address, 0, f.TextAt(e.name), e.number)
  }

  /** The function started at `i`, in the unit started at `u`, with the lines up to position `j`, as it is
      reported. */
  ghost predicate IsFunction(f: Format, trace: seq<Event>, u: nat, i: nat, j: nat, r: Reported) {
    && UnitAt(trace, u, i) && i < j <= |trace| && trace[i].StartFunction?
    && r.name == trace[i].functionName && r.address == trace[i].address && LinesAt(f, trace, i, j, r.lines)
  }

  /** A function ended at `j` that is not below its unit. */
  ghost predicate IsKept(f: Format, trace: seq<Event>, u: nat, i: nat, j: nat, r: Reported) {
    && IsFunction(f, trace, u, i, j, r) && j < |trace| && trace[j].EndFunction?
    && trace[u].address <= r.address
  }

  ghost predicate KeptAt(f: Format, trace: seq<Event>, j: nat, r: Reported) {
    exists u: nat, i: nat :: IsKept(f, trace, u, i, j, r)
  }

  lemma FunctionIn(f: Format, trace: seq<Event>, n: nat, u: nat, i: nat, j: nat, r: Reported)
    requires j <= n <= |trace|
    ensures IsFunction(f, trace[..n], u, i, j, r) <==> IsFunction(f, trace, u, i, j, r)
  {
  }

  /** In a function: which it is, and in which unit. */
  lemma {:induction false} CurrentIs(f: Format, trace: seq<Event>) returns (u: nat, i: nat)
    requires PlaceAfter(trace) == Body
    ensures var g := Gather(f, trace);
      g.current.Some? && IsFunction(f, trace, u, i, |trace|, g.current.value) && g.base == trace[u].address
    decreases |trace|
  {
    var n := |trace| - 1;
    OneMoreGathered(f, trace);
    hide Gather, Format.TextAt;
    if trace[n].StartFunction? {
      u := UnitIs(f, trace[..n]);
      i := n;
    } else {
      u, i := CurrentIs(f, trace[..n]);
      var r := Gather(f, trace[..n]).current.value;
      FunctionIn(f, trace, n, u, i, n, r);
      LineBehind(f, trace, u, i, n, r);
    }
  }

  lemma LineBehind(f: Format, trace: seq<Event>, u: nat, i: nat, n: nat, r: Reported)
    requires n + 1 == |trace| && trace[n].LineAt? && IsFunction(f, trace, u, i, n, r)
    ensures var e := trace[n];
      IsFunction(f, trace, u, i, n + 1, r.(lines := r.lines + [Line(e.address, 0, f.TextAt(e.name), e.number)]))
  {
    hide Format.TextAt;
  }

  /** In a unit, but in no function: which unit it is. */
  lemma {:induction false} UnitIs(f: Format, trace: seq<Event>) returns (u: nat)
    requires PlaceAfter(trace) == Unit
    ensures UnitAt(trace, u, |trace|) && Gather(f, trace).base == trace[u].address
    ensures Gather(f, trace).current == None
    decreases |trace|
  {
    var n := |trace| - 1;
    OneMoreGathered(f, trace);
    if trace[n].StartCompilationUnit? {
      u := n;
      NowhereIs(f, trace[..n]);
    } else {
      hide Gather;
      var i;
      u, i := CurrentIs(f, trace[..n]);
      OnlyLines(f, trace[..n], u, i, Gather(f, trace[..n]).current.value);
    }
  }

  lemma {:induction false} NowhereIs(f: Format, trace: seq<Event>)
    requires PlaceAfter(trace) == Nowhere
    ensures Gather(f, trace).current == None
    decreases |trace|
  {
    if trace != [] {
      var u := UnitIs(f, trace[..|trace| - 1]);
    }
  }

  lemma OnlyLines(f: Format, trace: seq<Event>, u: nat, i: nat, r: Reported)
    requires IsFunction(f, trace, u, i, |trace|, r)
    ensures UnitAt(trace, u, |trace|)
  {
    forall x | i < x < |trace| ensures !trace[x].StartCompilationUnit? {
      assert IsLine(f, trace[i + 1 + (x - i - 1)], r.lines[x - i - 1]);
    }
  }

  /** The position of the function and of its unit are determined by where it ends. */
  lemma SameFunction(f: Format, trace: seq<Event>, j: nat, u: nat, i: nat, r: Reported, u': nat, i': nat, r': Reported)
    requires IsFunction(f, trace, u, i, j, r) && IsFunction(f, trace, u', i', j, r')
    ensures u == u' && i == i' && r == r'
  {
    NotWithin(f, trace, u, i, j, r, i');
    NotWithin(f, trace, u', i', j, r', i);
    assert forall x :: 0 <= x < |r.lines| ==>
      IsLine(f, trace[i + 1 + x], r.lines[x]) && IsLine(f, trace[i + 1 + x], r'.lines[x]);
    assert r.lines == r'.lines;
  }

  lemma NotWithin(f: Format, trace: seq<Event>, u: nat, i: nat, j: nat, r: Reported, x: nat)
    requires IsFunction(f, trace, u, i, j, r) && x < j && trace[x].StartFunction?
    ensures x <= i
  {
    assert i < x ==> IsLine(f, trace[i + 1 + (x - i - 1)], r.lines[x - i - 1]);
  }

  ghost predicate Rising(s: seq<nat>) {
    forall a, b :: 0 <= a < b < |s| ==> s[a] < s[b]
  }

  /** Whether the function that ends here is kept. */
  lemma EndsHere(f: Format, trace: seq<Event>)
    requires trace != [] && PlaceAfter(trace) != Wrong && trace[|trace| - 1].EndFunction?
    ensures var n := |trace| - 1; var g := Gather(f, trace[..n]);
      && g.current.Some?
      && (g.current.value.address >= g.base ==> KeptAt(f, trace, n, g.current.value))
      && forall r :: KeptAt(f, trace, n, r) ==> g.current.value.address >= g.base
  {
    var n := |trace| - 1;
    var g := Gather(f, trace[..n]);
    hide Gather;
    var u, i := CurrentIs(f, trace[..n]);
    var r := g.current.value;
    FunctionIn(f, trace, n, u, i, n, r);
    assert trace[..n][u] == trace[u];
    if r.address >= g.base {
      assert IsKept(f, trace, u, i, n, r);
    }
    forall r' | KeptAt(f, trace, n, r') ensures r.address >= g.base {
      var u', i' :| IsKept(f, trace, u', i', n, r');
      SameFunction(f, trace, n, u, i, r, u', i', r');
    }
  }

  /** What is kept are just the functions begun and ended, not below their unit, in the order they end, with the
      line events between under the file that each names. */
  lemma {:induction false} KeptExactly(f: Format, trace: seq<Event>) returns (ends: seq<nat>)
    requires PlaceAfter(trace) != Wrong
    ensures |ends| == |Gather(f, trace).kept| && Rising(ends)
    ensures forall k :: 0 <= k < |ends| ==> KeptAt(f, trace, ends[k], Gather(f, trace).kept[k])
    ensures forall j: nat, r :: KeptAt(f, trace, j, r) ==> j in ends
    decreases |trace|
  {
    hide KeptAt, Gather;
    if trace == [] {
      NothingGathered(f);
      ends := [];
      KeptBefore(f, trace, 0);
    } else {
      var n := |trace| - 1;
      PrefixNotWrong(trace, n);
      ends := KeptExactly(f, trace[..n]);
      OneMoreGathered(f, trace);
      KeptBefore(f, trace, n);
      KeptBefore(f, trace[..n], n);
      if trace[n].EndFunction? {
        EndsHere(f, trace);
        var g := Gather(f, trace[..n]);
        if g.current.value.address >= g.base {
          ends := ends + [n];
        }
      }
    }
  }

  lemma KeptBefore(f: Format, trace: seq<Event>, n: nat)
    requires n <= |trace|
    ensures forall j: nat, r :: j < n ==> (KeptAt(f, trace[..n], j, r) <==> KeptAt(f, trace, j, r))
    ensures forall j: nat, r :: KeptAt(f, trace, j, r) ==> j < |trace| && trace[j].EndFunction?
  {
    forall j: nat, r | j < n ensures KeptAt(f, trace[..n], j, r) <==> KeptAt(f, trace, j, r) {
      if u: nat, i: nat :| IsKept(f, trace[..n], u, i, j, r) {
        FunctionIn(f, trace, n, u, i, j, r);
        assert IsKept(f, trace, u, i, j, r);
      }
      if u: nat, i: nat :| IsKept(f, trace, u, i, j, r) {
        FunctionIn(f, trace, n, u, i, j, r);
        assert IsKept(f, trace[..n], u, i, j, r);
      }
    }
  }

  /** A unit with two functions: the first is as long as its end says, though the second starts later. */
  const TWO_FUNCTIONS: seq<Event> :=
    [StartCompilationUnit(1, 0x1000, None), StartFunction("foo", 0x1000), LineAt(0x1004, 1, 7), EndFunction(0x1020),
     StartFunction("bar", 0x1030), EndFunction(0x1040), EndCompilationUnit(0x1040)]

  lemma SevenSteps(f: Format)
    ensures var e, foo := TWO_FUNCTIONS, Reported("foo", 0x1000, [Line(0x1004, 0, f.TextAt(1), 7)]);
      var bar := Reported("bar", 0x1030, []);
      var g1 := Gathered([], None, [0x1000], 0x1000);
      var g2 := Gathered([], Some(foo.(lines := [])), [0x1000, 0x1000], 0x1000);
      var g3 := g2.(current := Some(foo));
      var g4 := Gathered([foo], None, [0x1000, 0x1000, 0x1020], 0x1000);
      var g5 := Gathered([foo], Some(bar), [0x1000, 0x1000, 0x1020, 0x1030], 0x1000);
      var g6 := Gathered([foo, bar], None, [0x1000, 0x1000, 0x1020, 0x1030, 0x1040], 0x1000);
      var g7 := Gathered([foo, bar], None, [0x1000, 0x1000, 0x1020, 0x1030, 0x1040, 0x1040], 0);
      && GatherOne(f, Gathered([], None, [], 0), e[0]) == g1 && GatherOne(f, g1, e[1]) == g2
      && GatherOne(f, g2, e[2]) == g3 && GatherOne(f, g3, e[3]) == g4 && GatherOne(f, g4, e[4]) == g5
      && GatherOne(f, g5, e[5]) == g6 && GatherOne(f, g6, e[6]) == g7
  {
    hide Format.TextAt;
    var line := Line(0x1004, 0, f.TextAt(1), 7);
    assert [] + [line] == [line];
    assert Reported("foo", 0x1000, []).(lines := [line]) == Reported("foo", 0x1000, [line]);
  }

  lemma SevenInTurn<T>(e: seq<T>)
    requires |e| == 7
    ensures e[..1] == [] + [e[0]] && e[..2] == e[..1] + [e[1]] && e[..3] == e[..2] + [e[2]]
    ensures e[..4] == e[..3] + [e[3]] && e[..5] == e[..4] + [e[4]] && e[..6] == e[..5] + [e[5]] && e == e[..6] + [e[6]]
  {
  }

  lemma TwoFunctionsGathered(f: Format)
    ensures var foo, bar := Reported("foo", 0x1000, [Line(0x1004, 0, f.TextAt(1), 7)]), Reported("bar", 0x1030, []);
      Gather(f, TWO_FUNCTIONS)
        == Gathered([foo, bar], None, [0x1000, 0x1000, 0x1020, 0x1030, 0x1040, 0x1040], 0)
    ensures IsSize([0x1000, 0x1000, 0x1020, 0x1030, 0x1040, 0x1040], 0x1000, 0x20)
    ensures IsSize([0x1000, 0x1000, 0x1020, 0x1030, 0x1040, 0x1040], 0x1030, 0x10)
  {
    var t := TWO_FUNCTIONS;
    SizesOfBoundaries([0x1000, 0x1000, 0x1020, 0x1030, 0x1040, 0x1040]);
    NothingGathered(f);
    SevenSteps(f);
    hide Gather, GatherOne, Format.TextAt, IsSize;
    SevenInTurn(t);
    GatherMore(f, [], t[0]);
    GatherMore(f, t[..1], t[1]);
    GatherMore(f, t[..2], t[2]);
    GatherMore(f, t[..3], t[3]);
    GatherMore(f, t[..4], t[4]);
    GatherMore(f, t[..5], t[5]);
    GatherMore(f, t[..6], t[6]);
  }

  lemma NothingGathered(f: Format)
    ensures Gather(f, []) == Gathered([], None, [], 0)
  {
  }

  lemma SizesOfBoundaries(bs: seq<Address>)
    requires bs == [0x1000, 0x1000, 0x1020, 0x1030, 0x1040, 0x1040]
    ensures IsSize(bs, 0x1000, 0x20) && IsSize(bs, 0x1030, 0x10)
  {
    assert bs[2] in bs && bs[4] in bs;
  }
}
