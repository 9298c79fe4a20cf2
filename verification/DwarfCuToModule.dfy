/** Collecting functions and source lines from DWARF data, and giving each function its lines. */
module DwarfCuToModule {
  import opened Addresses
  import opened Sorting
  import opened SweepTheory
  import opened SymbolModule

  /** `WarningReporter`, as a log of the two warnings the sweep gives. */
  class WarningReporter {
    var uncoveredFunctions: seq<Function>
    var uncoveredLines: seq<Line>

    constructor ()
      ensures uncoveredFunctions == [] && uncoveredLines == []
    {
      uncoveredFunctions, uncoveredLines := [], [];
    }
  }

  predicate Within(item: Range, address: Address)
    requires item.Proper() && item.size < TWO_64
  {
    Minus(address, item.base) < item.size
  }

  /** The wrap-around in `Within` makes it exact membership. */
  lemma WithinIsMembership(item: Range, address: Address)
    requires item.Proper() && item.size < TWO_64
    ensures Within(item, address) <==> item.Has(address)
  {
  }

  /** An address that has wrapped to zero stands for the end of the address space. */
  function Unwrapped(a: Address): int {
    if a == 0 then TWO_64 else a
  }

  /** The elements of `s` at the given positions. */
  ghost function Pick<T>(s: seq<T>, at: seq<nat>): seq<T> {
    if at == [] then [] else
    Pick(s, at[..|at| - 1]) + if at[|at| - 1] < |s| then [s[at[|at| - 1]]] else []
  }

  /** One element for each position, in order. */
  lemma {:induction false} PickMeans<T>(s: seq<T>, at: seq<nat>)
    requires forall i :: 0 <= i < |at| ==> at[i] < |s|
    ensures |Pick(s, at)| == |at| && forall i :: 0 <= i < |at| ==> Pick(s, at)[i] == s[at[i]]
  {
    if at != [] {
      PickMeans(s, at[..|at| - 1]);
    }
  }

  lemma PickNote<T>(s: seq<T>, at: seq<nat>, k: nat)
    requires k < |s|
    ensures Pick(s, Note(at, k)) == Pick(s, at) + if Last(at) == Some(k) then [] else [s[k]]
    ensures Last(Note(at, k)) == Some(k)
  {
    assert (at + [k])[..|at|] == at;
  }

  /** A function or line as the uint64 pair it is stored as. */
  type Item = r: Range | r.Proper() && r.size < TWO_64 witness Range(0, 1)

  predicate Begun(item: Option<Item>, current: Address) {
    item.Some? && current >= item.value.base
  }

  /** The next transition address after `current`, wrapped to zero at the end of the address space. */
  function NextTransition(func: Option<Item>, line: Option<Item>, current: Address): Address
    requires func.Some? || line.Some?
    requires Begun(func, current) ==> func.value.Has(current)
    requires Begun(line, current) ==> line.value.Has(current)
  {
    if Begun(func, current) then
      if Begun(line, current) then
        var funcLeft := Minus(func.value.size, Minus(current, func.value.base));
        var lineLeft := Minus(line.value.size, Minus(current, line.value.base));
        Plus(current, Min(funcLeft, lineLeft))
      else if line.Some? && Within(func.value, line.value.base) then line.value.base
      else Plus(func.value.base, func.value.size)
    else if Begun(line, current) then
      if func.Some? && Within(line.value, func.value.base) then func.value.base
      else Plus(line.value.base, line.value.size)
    else if func.Some? && line.Some? then Min(func.value.base, line.value.base)
    else if func.Some? then func.value.base
    else line.value.base
  }

  /** The stretch up to the next transition is uniform for the item: wholly in it, or before it. */
  predicate Alike(item: Option<Item>, current: int, b: int) {
    item.Some? ==> b <= item.value.base || Inside(item.value, current, b)
  }

  lemma NextIsTransition(func: Option<Item>, line: Option<Item>, current: Address)
    requires func.Some? || line.Some?
    requires func.Some? ==> current < func.value.End()
    requires line.Some? ==> current < line.value.End()
    ensures var b := Unwrapped(NextTransition(func, line, current));
      && current < b && Alike(func, current, b) && Alike(line, current, b)
      && (Begun(func, current) && Begun(line, current) ==> b == func.value.End() || b == line.value.End())
      && (Begun(line, current) && !Begun(func, current) ==>
            b == line.value.End() || (func.Some? && b == func.value.base))
  {
  }

  function Piece(l: Line, a: Address, b: Address): Line {
    l.(address := a, size := Minus(b, a))
  }

  class DwarfCUToModule {
    var functions: seq<Function>
    var lines: seq<Line>
    const reporter: WarningReporter

    constructor (reporter: WarningReporter)
      ensures functions == [] && lines == [] && this.reporter == reporter
    {
      this.reporter, functions, lines := reporter, [], [];
    }

    ghost function FunctionBytes(): seq<Range>
      reads this`functions, functions
    {
      FunctionRanges(functions)
    }

    ghost function Owned(): set<Function>
      reads this`functions
    {
      set f | f in functions
    }

    ghost predicate FunctionsAre(fs: seq<Range>)
      reads this`functions, functions
    {
      |fs| == |functions| && forall i :: 0 <= i < |fs| ==> functions[i].Bytes() == fs[i]
    }

    lemma TheseAre(fs: seq<Range>)
      ensures FunctionsAre(fs) <==> FunctionBytes() == fs
    {
      assert FunctionsAre(fs) ==> FunctionBytes() == fs;
    }

    ghost function LineBytes(): seq<Range>
      reads this`lines
    {
      LineRanges(lines)
    }

    /** What `FuncHandler.Finish` and `DwarfLineToModule.AddLine` establish. */
    ghost predicate Valid()
      reads this, functions
    {
      && Distinct(functions)
      && (forall f :: f in functions ==> f.Bytes().Proper())
      && (forall l :: l in lines ==> l.Bytes().Proper())
    }

    function FunctionAt(fi: nat): Option<Item>
      requires Valid()
      reads this, functions
    {
      if fi < |functions| then Some(functions[fi].Bytes()) else None
    }

    function LineAt(li: nat): Option<Item>
      requires Valid()
      reads this, functions
    {
      if li < |lines| then Some(lines[li].Bytes()) else None
    }

    /** Each function object holds the pieces the record gives it, and since logging `f0` and `l0`
        the reporter has logged what the record says was reported. */
    ghost predicate Recorded(r: Record, f0: seq<Function>, l0: seq<Line>)
      reads this, functions, reporter
    {
      && |r.pieces| == |functions| && (forall i :: 0 <= i < |functions| ==> functions[i].lines == r.pieces[i])
      && reporter.uncoveredFunctions == f0 + Pick(functions, r.gaps)
      && reporter.uncoveredLines == l0 + Pick(lines, r.strays)
    }

    method HandOut(fi: nat, li: nat, current: Address, next: Address,
                   ghost r: Record, ghost f0: seq<Function>, ghost l0: seq<Line>)
      requires Valid() && fi < |functions| && li < |lines| && Recorded(r, f0, l0)
      modifies Owned()`lines
      ensures Recorded(r.(pieces := r.pieces[fi := r.pieces[fi] + [Piece(lines[li], current, next)]],
                          used := Note(r.used, li)), f0, l0)
    {
      functions[fi].lines := functions[fi].lines + [Piece(lines[li], current, next)];
    }

    /** Report a function unless it was the last one reported. */
    method CiteFunction(fi: nat, lastFunctionCited: Option<nat>,
                        ghost r: Record, ghost f0: seq<Function>, ghost l0: seq<Line>) returns (cited: Option<nat>)
      requires Valid() && fi < |functions| && Recorded(r, f0, l0) && lastFunctionCited == Last(r.gaps)
      modifies reporter
      ensures cited == Last(Note(r.gaps, fi)) && Recorded(r.(gaps := Note(r.gaps, fi)), f0, l0)
    {
      PickNote(functions, r.gaps, fi);
      cited := Some(fi);
      if lastFunctionCited != Some(fi) {
        reporter.uncoveredFunctions := reporter.uncoveredFunctions + [functions[fi]];
      }
    }

    /** Report a line unless it was the last one reported. */
    method CiteLine(li: nat, lastLineCited: Option<nat>,
                    ghost r: Record, ghost f0: seq<Function>, ghost l0: seq<Line>) returns (cited: Option<nat>)
      requires Valid() && li < |lines| && Recorded(r, f0, l0) && lastLineCited == Last(r.strays)
      modifies reporter
      ensures cited == Last(Note(r.strays, li)) && Recorded(r.(strays := Note(r.strays, li)), f0, l0)
    {
      PickNote(lines, r.strays, li);
      cited := Some(li);
      if lastLineCited != Some(li) {
        reporter.uncoveredLines := reporter.uncoveredLines + [lines[li]];
      }
    }

    lemma HeldAt(fi: nat, li: nat, current: Address, fs: seq<Range>)
      requires Valid() && FunctionsAre(fs) && Stands(fs, fi, current) && Stands(LineBytes(), li, current)
      ensures fi <= |functions| == |fs| && li <= |lines|
      ensures fi < |functions| ==> functions[fi].Bytes().Proper() && current < functions[fi].Bytes().End()
      ensures li < |lines| ==> lines[li].Bytes().Proper() && current < lines[li].Bytes().End()
    {
      assert fi < |functions| ==> functions[fi].Bytes() == fs[fi];
    }

    lemma RoundSteps(fi: nat, li: nat, current: Address, b: int, fs: seq<Range>)
      requires Valid() && FunctionsAre(fs) && Stands(fs, fi, current) && Stands(LineBytes(), li, current)
      requires current < b <= TWO_64
      requires var func, line := FunctionAt(fi), LineAt(li);
        && Alike(func, current, b) && Alike(line, current, b)
        && (Begun(func, current) && Begun(line, current) ==> b == func.value.End() || b == line.value.End())
        && (Begun(line, current) && !Begun(func, current) ==>
              b == line.value.End() || (func.Some? && b == func.value.base))
      ensures Step(fs, LineBytes(), fi, li, current, b) && Ends(fs, LineBytes(), fi, li, current, b)
      ensures In(LineBytes(), li, current) ==> b - current < TWO_64
    {
      assert fi < |functions| ==> functions[fi].Bytes() == fs[fi];
      assert li < |lines| ==> LineBytes()[li] == lines[li].Bytes() && lines[li].Bytes().Proper();
      assert AllProper(fs) && AllProper(LineBytes());
    }

    /** `Extend` in the terms of the code. */
    lemma RoundExtends(fi: nat, li: nat, current: Address, next: Address, fs: seq<Range>, r: Record)
      requires Valid() && FunctionsAre(fs) && fi <= |functions| && li <= |lines|
      requires |r.pieces| == |functions| && current < Unwrapped(next)
      requires In(LineBytes(), li, current) ==> Unwrapped(next) - current < TWO_64
      ensures Extend(r, fs, lines, fi, li, current, Unwrapped(next))
           == if Begun(FunctionAt(fi), current) then
                if Begun(LineAt(li), current) then
                  r.(pieces := r.pieces[fi := r.pieces[fi] + [Piece(lines[li], current, next)]],
                     used := Note(r.used, li))
                else r.(gaps := Note(r.gaps, fi))
              else if Begun(LineAt(li), current)
                      && !(fi < |functions| && Last(r.used) == Some(li)
                           && Minus(functions[fi].address, lines[li].address) == lines[li].size)
              then r.(strays := Note(r.strays, li))
              else r
    {
      hide Note, Last;
      assert fi < |functions| ==> functions[fi].Bytes() == fs[fi];
      assert li < |lines| ==> LineBytes()[li] == lines[li].Bytes() && lines[li].Bytes().Proper();
    }

    /** One round of the sweep before the iterators advance: hand out or report the stretch from
        `current` to the next transition. `Extend` does to the record what this does to the objects. */
    method SweepStep(fi: nat, li: nat, current: Address, lastLineUsed: Option<nat>,
                     lastFunctionCited: Option<nat>, lastLineCited: Option<nat>,
                     ghost fs: seq<Range>, ghost r: Record, ghost f0: seq<Function>, ghost l0: seq<Line>)
      returns (next: Address, used: Option<nat>, functionCited: Option<nat>, lineCited: Option<nat>, ghost s: Record)
      requires Valid() && FunctionsAre(fs) && Stands(fs, fi, current) && Stands(LineBytes(), li, current)
      requires fi < |functions| || li < |lines|
      requires |r.pieces| == |functions| && Recorded(r, f0, l0)
      requires lastLineUsed == Last(r.used) && lastFunctionCited == Last(r.gaps) && lastLineCited == Last(r.strays)
      modifies reporter, Owned()`lines
      ensures current < Unwrapped(next)
      ensures Step(fs, LineBytes(), fi, li, current, Unwrapped(next))
      ensures Ends(fs, LineBytes(), fi, li, current, Unwrapped(next))
      ensures In(LineBytes(), li, current) ==> Unwrapped(next) - current < TWO_64
      ensures s == Extend(r, fs, lines, fi, li, current, Unwrapped(next)) && Recorded(s, f0, l0)
      ensures |s.pieces| == |functions| && used == Last(s.used)
      ensures functionCited == Last(s.gaps) && lineCited == Last(s.strays)
      ensures Valid() && FunctionsAre(fs)
    {
      hide Recorded, Step, Ends, Extend, Stands;
      used, functionCited, lineCited := lastLineUsed, lastFunctionCited, lastLineCited;
      HeldAt(fi, li, current, fs);
      var func, line := FunctionAt(fi), LineAt(li);
      next := NextTransition(func, line, current);
      NextIsTransition(func, line, current);
      RoundSteps(fi, li, current, Unwrapped(next), fs);
      RoundExtends(fi, li, current, next, fs, r);
      s := Extend(r, fs, lines, fi, li, current, Unwrapped(next));
      if Begun(func, current) {
        if Begun(line, current) {
          // In both: the function gets a piece.
          HandOut(fi, li, current, next, r, f0, l0);
          used := Some(li);
        } else {
          // In the function alone.
          functionCited := CiteFunction(fi, lastFunctionCited, r, f0, l0);
        }
      } else if Begun(line, current) {
        // In the line alone. What is left of a line in use, up to the next function, is padding.
        if !(fi < |functions| && lastLineUsed == Some(li)
             && Minus(functions[fi].address, lines[li].address) == lines[li].size) {
          lineCited := CiteLine(li, lastLineCited, r, f0, l0);
        }
      }
    }

    ghost predicate FunctionsDisjoint()
      reads this`functions, functions
    {
      forall f, g :: f in functions && g in functions && f != g ==>
        f.Bytes().End() <= g.address || g.Bytes().End() <= f.address
    }

    ghost predicate LinesDisjoint()
      reads this`lines
    {
      && Distinct(lines)
      && forall k, l :: k in lines && l in lines && k != l ==>
           k.Bytes().End() <= l.address || l.Bytes().End() <= k.address
    }

    lemma SortedDisjointFunctions()
      requires Valid() && SortedByBase(FunctionBytes()) && FunctionsDisjoint()
      ensures Ladder(FunctionBytes())
    {
      forall i, j | 0 <= i < j < |functions| ensures functions[i].Bytes().End() <= functions[j].address {
        assert FunctionBytes()[i].base <= FunctionBytes()[j].base;
        assert functions[j].Bytes().Proper();
      }
    }

    method SortFunctions()
      requires Valid()
      modifies this`functions
      ensures Valid() && multiset(functions) == multiset(old(functions)) && Owned() == old(Owned())
      ensures SortedByBase(FunctionBytes()) && (old(FunctionsDisjoint()) ==> FunctionsDisjoint())
    {
      ghost var was := functions;
      functions := Sort(functions, (f: Function) => f.address);
      DistinctPermutation(was, functions);
      SameElements(was, functions);
    }

    method SortLines()
      requires Valid()
      modifies this`lines
      ensures Valid() && multiset(lines) == multiset(old(lines))
      ensures SortedByBase(LineBytes()) && (old(LinesDisjoint()) ==> Ladder(LineBytes()))
    {
      ghost var was := lines;
      lines := Sort(lines, (l: Line) => l.address);
      SameElements(was, lines);
      if Distinct(was) { DistinctPermutation(was, lines); }
    }

    /** Sort both vectors. */
    method SortByAddress()
      requires Valid()
      modifies this`functions, this`lines
      ensures Valid() && Owned() == old(Owned())
      ensures multiset(functions) == multiset(old(functions)) && multiset(lines) == multiset(old(lines))
      ensures SortedByBase(FunctionBytes()) && SortedByBase(LineBytes())
      ensures old(FunctionsDisjoint() && LinesDisjoint()) ==> Ladder(FunctionBytes()) && Ladder(LineBytes())
    {
      hide Ladder, SortedByBase, FunctionsDisjoint, LinesDisjoint, Distinct;
      SortFunctions();
      if FunctionsDisjoint() { SortedDisjointFunctions(); }
      SortLines();
    }

    method AdvanceFunctions(from: nat, next: Address, ghost fs: seq<Range>, ghost current: Address) returns (fi: nat)
      requires Valid() && FunctionsAre(fs) && Stands(fs, from, current) && current < next
      ensures Stands(fs, fi, next)
    {
      fi := from;
      while fi < |functions| && next >= functions[fi].address && !Within(functions[fi].Bytes(), next)
        invariant fi <= |functions| && forall i :: 0 <= i < fi ==> fs[i].End() <= next
      {
        assert fs[fi] == functions[fi].Bytes();
        fi := fi + 1;
      }
      assert fi < |functions| ==> functions[fi].Bytes().Proper();
    }

    method AdvanceLines(from: nat, next: Address, ghost current: Address) returns (li: nat)
      requires Valid() && Stands(LineBytes(), from, current) && current < next
      ensures Stands(LineBytes(), li, next)
    {
      li := from;
      while li < |lines| && next >= lines[li].address && !Within(lines[li].Bytes(), next)
        invariant li <= |lines| && forall j :: 0 <= j < li ==> lines[j].Bytes().End() <= next
      {
        li := li + 1;
      }
      assert li < |lines| ==> lines[li].Bytes().Proper();
    }

    /** Where the sweep begins. */
    method FirstAddress(ghost fs: seq<Range>, ghost disjoint: bool, ghost r: Record) returns (current: Address)
      requires Valid() && FunctionsAre(fs) && SortedByBase(fs) && SortedByBase(LineBytes())
      requires disjoint ==> Ladder(fs) && Ladder(LineBytes())
      requires r == Record(seq(|functions|, _ => []), [], [], []) && forall f :: f in Owned() ==> f.lines == []
      ensures Recorded(r, reporter.uncoveredFunctions, reporter.uncoveredLines)
      ensures Stands(fs, 0, current) && Stands(LineBytes(), 0, current)
      ensures Holds(fs, lines, disjoint, r, current)
    {
      current := 0;
      if 0 < |functions| && 0 < |lines| {
        current := Min(functions[0].address, lines[0].address);
      } else if 0 < |lines| {
        current := lines[0].address;
      } else if 0 < |functions| {
        current := functions[0].address;
      }
      assert 0 < |functions| ==> functions[0].Bytes().Proper();
      assert 0 < |lines| ==> lines[0].Bytes().Proper();
      HoldsStart(fs, lines, disjoint, r.pieces, current);
    }

    /** The first invariant of the original: an item not yet passed holds or follows `current`. */
    lemma NotPassed(fi: nat, li: nat, current: Address, fs: seq<Range>)
      requires Valid() && FunctionsAre(fs) && Stands(fs, fi, current) && Stands(LineBytes(), li, current)
      ensures fi < |functions| ==> (
                && functions[fi].Bytes().Proper()
                && (current < functions[fi].address || Within(functions[fi].Bytes(), current)))
      ensures li < |lines| ==> (
                && lines[li].Bytes().Proper()
                && (current < lines[li].address || Within(lines[li].Bytes(), current)))
    {
      HeldAt(fi, li, current, fs);
    }

    /** One round of the sweep extends what is settled. */
    method SweepRound(fi: nat, li: nat, current: Address, lastLineUsed: Option<nat>,
                      lastFunctionCited: Option<nat>, lastLineCited: Option<nat>, ghost fs: seq<Range>,
                      ghost disjoint: bool, ghost r: Record, ghost f0: seq<Function>, ghost l0: seq<Line>)
      returns (next: Address, used: Option<nat>, functionCited: Option<nat>, lineCited: Option<nat>, ghost s: Record)
      requires Valid() && FunctionsAre(fs) && Stands(fs, fi, current) && Stands(LineBytes(), li, current)
      requires fi < |functions| || li < |lines|
      requires |r.pieces| == |functions| && Recorded(r, f0, l0) && Holds(fs, lines, disjoint, r, current)
      requires lastLineUsed == Last(r.used) && lastFunctionCited == Last(r.gaps) && lastLineCited == Last(r.strays)
      modifies reporter, Owned()`lines
      ensures current < Unwrapped(next) && Valid() && FunctionsAre(fs)
      ensures Recorded(s, f0, l0) && Holds(fs, lines, disjoint, s, Unwrapped(next))
      ensures |s.pieces| == |functions| && used == Last(s.used)
      ensures functionCited == Last(s.gaps) && lineCited == Last(s.strays)
    {
      hide Holds, Recorded, Step, Ends, Extend, Stands, FunctionsAre, Valid;
      next, used, functionCited, lineCited, s :=
        SweepStep(fi, li, current, lastLineUsed, lastFunctionCited, lastLineCited, fs, r, f0, l0);
      HoldsStep(fs, lines, disjoint, r, fi, li, current, Unwrapped(next));
    }

    /** Nothing is left to settle. */
    lemma SweepEnds(fi: nat, li: nat, current: Address, fs: seq<Range>, disjoint: bool, r: Record)
      requires Valid() && FunctionsAre(fs) && Stands(fs, fi, current) && Stands(LineBytes(), li, current)
      requires fi >= |functions| && li >= |lines| && Holds(fs, lines, disjoint, r, current)
      ensures Holds(fs, lines, disjoint, r, TWO_64)
    {
      HeldAt(fi, li, current, fs);
      hide Holds;
      HoldsEnd(fs, lines, disjoint, r, current);
    }

    /** The sweep proper, over functions and lines already in address order. */
    method SweepSorted(ghost fs: seq<Range>, ghost disjoint: bool) returns (ghost r: Record)
      requires Valid() && forall f :: f in Owned() ==> f.lines == []
      requires FunctionsAre(fs) && SortedByBase(fs) && SortedByBase(LineBytes())
      requires disjoint ==> Ladder(fs) && Ladder(LineBytes())
      modifies reporter, Owned()`lines
      ensures Valid() && FunctionsAre(fs)
      ensures Recorded(r, old(reporter.uncoveredFunctions), old(reporter.uncoveredLines))
      ensures Holds(fs, lines, disjoint, r, TWO_64)
    {
      hide Holds, Recorded, Step, Ends, Extend, Ladder, SortedByBase, Stands, FunctionsAre, Valid;
      ghost var f0, l0 := reporter.uncoveredFunctions, reporter.uncoveredLines;
      r := Record(seq(|functions|, _ => []), [], [], []);

      // The referents of the two iterators; past the end stands for a null pointer.
      var fi: nat, li: nat := 0, 0;
      var current: Address := FirstAddress(fs, disjoint, r);

      var lastLineUsed: Option<nat>, lastFunctionCited: Option<nat>, lastLineCited: Option<nat> := None, None, None;
      while fi < |functions| || li < |lines|
        invariant Valid() && FunctionsAre(fs)
        invariant Stands(fs, fi, current) && Stands(LineBytes(), li, current)
        invariant |r.pieces| == |functions| && Recorded(r, f0, l0) && Holds(fs, lines, disjoint, r, current)
        invariant lastLineUsed == Last(r.used) && lastFunctionCited == Last(r.gaps) && lastLineCited == Last(r.strays)
        decreases TWO_64 - current
      {
        NotPassed(fi, li, current, fs);
        assert fi < |functions| ==> current < functions[fi].address || Within(functions[fi].Bytes(), current);
        assert li < |lines| ==> current < lines[li].address || Within(lines[li].Bytes(), current);

        var next: Address;
        next, lastLineUsed, lastFunctionCited, lastLineCited, r :=
          SweepRound(fi, li, current, lastLineUsed, lastFunctionCited, lastLineCited, fs, disjoint, r, f0, l0);

        // A function or line that abuts the end of the address space makes `next` wrap to zero.
        if next == 0 {
          return;
        }
        fi := AdvanceFunctions(fi, next, fs, current);
        li := AdvanceLines(li, next, current);

        // Each round goes on.
        assert next > current;
        current := next;
      }
      SweepEnds(fi, li, current, fs, disjoint, r);
    }

    /** The result carries a ghost record: which pieces went where, and what was reported. */
    method AssignLinesToFunctions() returns (ghost r: Record)
      requires Valid() && forall f :: f in Owned() ==> f.lines == []
      modifies this`functions, this`lines, reporter, Owned()`lines
      ensures Valid()
      ensures multiset(functions) == multiset(old(functions)) && multiset(lines) == multiset(old(lines))
      ensures SortedByBase(FunctionBytes()) && SortedByBase(LineBytes())
      ensures Recorded(r, old(reporter.uncoveredFunctions), old(reporter.uncoveredLines))
      ensures Holds(FunctionBytes(), lines, old(FunctionsDisjoint() && LinesDisjoint()), r, TWO_64)
    {
      hide Holds, Recorded, Ladder, SortedByBase, FunctionsDisjoint, LinesDisjoint, Valid, FunctionsAre;
      ghost var disjoint := FunctionsDisjoint() && LinesDisjoint();
      SortByAddress();
      assert forall f :: f in Owned() ==> f.lines == [];
      ghost var fs := FunctionBytes();
      TheseAre(fs);
      r := SweepSorted(fs, disjoint);
      TheseAre(fs);
    }
  }

  /** The handler for one function entry, when all its attributes have been read. */
  class FuncHandler {
    const name: string
    const lowPc: Address
    var highPc: Address
    const highPcIsAddress: bool  // otherwise it is an offset from lowPc
    const isInline: bool
    const offset: Address

    constructor (name: string, lowPc: Address, highPc: Address, highPcIsAddress: bool, isInline: bool, offset: Address)
      ensures this.name == name && this.lowPc == lowPc && this.highPc == highPc
      ensures this.highPcIsAddress == highPcIsAddress && this.isInline == isInline && this.offset == offset
    {
      this.name, this.lowPc, this.highPc, this.highPcIsAddress := name, lowPc, highPc, highPcIsAddress;
      this.isInline, this.offset := isInline, offset;
    }

    /** Every function added is non-empty, starts above zero and ends below 2^64, so that the sweep may
        rely on `Valid`. An entry with no bytes is an abstract origin if it is inline. */
    method Finish(cu: DwarfCUToModule, origins: map<Address, string>) returns (newOrigins: map<Address, string>)
      requires cu.Valid()
      modifies this`highPc, cu`functions
      ensures cu.Valid()
      ensures highPc == if highPcIsAddress then old(highPc) else Plus(old(highPc), lowPc)
      ensures lowPc < highPc && lowPc != 0 ==>
        && |cu.functions| == |old(cu.functions)| + 1 && cu.functions[..|old(cu.functions)|] == old(cu.functions)
        && var f := cu.functions[|old(cu.functions)|];
           && fresh(f) && f.address == lowPc && f.address + f.size == highPc && f.lines == []
           && f.name == if name == "" then "<name omitted>" else name
      ensures !(lowPc < highPc && lowPc != 0) ==> cu.functions == old(cu.functions)
      ensures newOrigins == if lowPc >= highPc && isInline then origins[offset := name] else origins
    {
      newOrigins := origins;
      if !highPcIsAddress {
        highPc := Plus(highPc, lowPc);
      }
      if lowPc < highPc {
        var functionName := if name != "" then name else "<name omitted>";
        var func := new Function(functionName, lowPc);
        func.size := highPc - lowPc;
        if func.address != 0 {
          cu.functions := cu.functions + [func];
        }
      } else if isInline {
        newOrigins := origins[offset := name];
      }
    }
  }
}
