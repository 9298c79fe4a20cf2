/** Collecting what a STABS reader reports, and working out the sizes it does not report. */
module StabsToModule {
  import opened Addresses
  import opened Sorting
  import opened StabsProtocol
  import opened SymbolModule

  const FALLBACK_SIZE: Address := 0x10000000

  /** A function as it was reported. */
  datatype Reported = Reported(name: string, address: Address, lines: seq<Line>)

  /** What a trace says of functions and boundaries; `base` is the address of the unit we are in. */
  datatype Gathered = Gathered(kept: seq<Reported>, current: Option<Reported>, boundaries: seq<Address>, base: Address)

  function Noted(boundaries: seq<Address>, address: Address): seq<Address> {
    if address == 0 then boundaries else boundaries + [address]
  }

  function GatherOne(f: Format, g: Gathered, e: Event): Gathered {
    match e
    case StartCompilationUnit(_, address, _) => g.(boundaries := g.boundaries + [address], base := address)
    case EndCompilationUnit(address) => g.(boundaries := Noted(g.boundaries, address), base := 0)
    case StartFunction(name, address) =>
      g.(current := Some(Reported(name, address, [])), boundaries := g.boundaries + [address])
    case EndFunction(address) =>
      var kept := if g.current.Some? && g.current.value.address >= g.base then g.kept + [g.current.value] else g.kept;
      g.(kept := kept, current := None, boundaries := Noted(g.boundaries, address))
    case LineAt(address, name, number) =>
      if g.current.None? then g
      else
        var line := Line(address, 0, f.TextAt(name), number);
        g.(current := Some(g.current.value.(lines := g.current.value.lines + [line])))
  }

  function Gather(f: Format, trace: seq<Event>): Gathered {
    if trace == [] then Gathered([], None, [], 0)
    else GatherOne(f, Gather(f, trace[..|trace| - 1]), trace[|trace| - 1])
  }

  /** Every function starts at a boundary. */
  lemma {:induction false} FunctionsAtBoundaries(f: Format, trace: seq<Event>)
    ensures var g := Gather(f, trace);
      && (forall r :: r in g.kept ==> r.address in g.boundaries)
      && (g.current.Some? ==> g.current.value.address in g.boundaries)
  {
    if trace != [] {
      FunctionsAtBoundaries(f, trace[..|trace| - 1]);
    }
  }

  lemma {:induction false} GatheredUnsized(f: Format, trace: seq<Event>)
    ensures var g := Gather(f, trace);
      && (forall r :: r in g.kept ==> Unsized(r.lines) == r.lines)
      && (g.current.Some? ==> Unsized(g.current.value.lines) == g.current.value.lines)
  {
    if trace != [] {
      GatheredUnsized(f, trace[..|trace| - 1]);
    }
  }

  /** `size` reaches from `address` to the next boundary, or is the fallback if there is none. */
  ghost predicate IsSize(boundaries: seq<Address>, address: Address, size: Address) {
    if exists b :: b in boundaries && address < b
    then address + size in boundaries && 0 < size && forall b :: b in boundaries && address < b ==> address + size <= b
    else size == FALLBACK_SIZE
  }

  /** Functions with different addresses never overlap. */
  lemma NeverOverlap(boundaries: seq<Address>, a: Address, aSize: Address, b: Address, bSize: Address)
    requires a in boundaries && b in boundaries && a != b
    requires IsSize(boundaries, a, aSize) && IsSize(boundaries, b, bSize)
    ensures forall x :: !(Range(a, aSize).Has(x) && Range(b, bSize).Has(x))
  {
    assert a < b ==> a + aSize <= b;
    assert b < a ==> b + bSize <= a;
  }

  /** The fallback is used at the greatest boundary, and nowhere else does a function end off the boundaries. */
  lemma FallbackAtEnd(boundaries: seq<Address>, address: Address, size: Address)
    requires address in boundaries && IsSize(boundaries, address, size)
    ensures address + size !in boundaries ==> (size == FALLBACK_SIZE && forall b :: b in boundaries ==> b <= address)
    ensures (forall b :: b in boundaries ==> b <= address) ==> size == FALLBACK_SIZE
  {
  }

  function Unsized(lines: seq<Line>): (r: seq<Line>)
    ensures |r| == |lines| && forall i :: 0 <= i < |r| ==> r[i] == lines[i].(size := 0)
  {
    seq(|lines|, i requires 0 <= i < |lines| => lines[i].(size := 0))
  }

  /** Where line `i` ends: at the next line, or at `end`. */
  function EndOfLine(lines: seq<Line>, end: Address, i: nat): Address {
    if i + 1 < |lines| then lines[i + 1].address else end
  }

  /** Each line reaches to its end, on 64-bit addresses. */
  ghost predicate LinesReach(lines: seq<Line>, end: Address) {
    forall i :: 0 <= i < |lines| ==> lines[i].size == Minus(EndOfLine(lines, end, i), lines[i].address)
  }

  function AddressOf(): Line -> int {
    (l: Line) => l.address
  }

  /** The lines in order of address, those at the same address as they were. */
  ghost predicate StablySorted(before: seq<Line>, lines: seq<Line>) {
    && Ordered(lines, AddressOf()) && multiset(lines) == multiset(before)
    && forall k :: WithKey(lines, AddressOf(), k) == WithKey(before, AddressOf(), k)
  }

  ghost predicate LinesDone(before: seq<Line>, lines: seq<Line>, end: Address) {
    StablySorted(before, Unsized(lines)) && LinesReach(lines, end)
  }

  function SumOfSizes(lines: seq<Line>): Address {
    if lines == [] then 0 else Plus(SumOfSizes(lines[..|lines| - 1]), lines[|lines| - 1].size)
  }

  /** Together the lines reach from the first one's address to the end of the function, modulo 2^64. */
  lemma {:induction false} SizesTelescope(lines: seq<Line>, end: Address)
    requires LinesReach(lines, end) && lines != []
    ensures SumOfSizes(lines) == Minus(end, lines[0].address)
  {
    var n := |lines| - 1;
    if n == 0 {
      assert SumOfSizes(lines[..n]) == 0;
    } else {
      assert lines[..n][0] == lines[0];
      assert forall i :: 0 <= i < n ==> EndOfLine(lines, end, i) == EndOfLine(lines[..n], lines[n].address, i);
      SizesTelescope(lines[..n], lines[n].address);
    }
  }

  /** Only the last line's size can have wrapped. */
  lemma SizesPlain(before: seq<Line>, lines: seq<Line>, end: Address, i: nat)
    requires LinesDone(before, lines, end) && i + 1 < |lines|
    ensures lines[i].address + lines[i].size == lines[i + 1].address
  {
    var us, key := Unsized(lines), AddressOf();
    assert key(us[i]) <= key(us[i + 1]);
  }

  function Resized(lines: seq<Line>, i: nat, size: Address): (r: seq<Line>)
    requires i < |lines|
    ensures |r| == |lines| && Unsized(r) == Unsized(lines) && r[i].size == size
    ensures forall j :: 0 <= j < |lines| ==> r[j].address == lines[j].address
    ensures forall j :: 0 <= j < |lines| && j != i ==> r[j] == lines[j]
  {
    lines[i := lines[i].(size := size)]
  }

  lemma SortedUnsized(before: seq<Line>, sorted: seq<Line>)
    requires Unsized(before) == before && multiset(sorted) == multiset(before)
    ensures Unsized(sorted) == sorted
  {
    SameElements(before, sorted);
    forall i | 0 <= i < |sorted| ensures sorted[i].size == 0 {
      assert sorted[i] in before;
      var j :| 0 <= j < |before| && before[j] == sorted[i];
      assert Unsized(before)[j].size == 0;
    }
  }

  lemma NextBoundary(boundaries: seq<Address>, address: Address, i: nat)
    requires i < |boundaries| && (forall j :: 0 <= j < i ==> boundaries[j] <= address)
    requires address < boundaries[i] && Ordered(boundaries, (b: Address) => b)
    ensures IsSize(boundaries, address, Minus(boundaries[i], address))
  {
    var key := (b: Address) => b;
    assert boundaries[i] in boundaries;
    forall b | b in boundaries && address < b ensures boundaries[i] <= b {
      var j :| 0 <= j < |boundaries| && boundaries[j] == b;
      assert i < j ==> key(boundaries[i]) <= key(boundaries[j]);
    }
  }

  /** `std::upper_bound` */
  method UpperBound(boundaries: seq<Address>, address: Address) returns (i: nat)
    requires Ordered(boundaries, (b: Address) => b)
    ensures i <= |boundaries| && (forall j :: 0 <= j < i ==> boundaries[j] <= address)
    ensures forall j :: i <= j < |boundaries| ==> address < boundaries[j]
  {
    i := 0;
    while i < |boundaries| && boundaries[i] <= address
      invariant i <= |boundaries| && forall j :: 0 <= j < i ==> boundaries[j] <= address
    {
      i := i + 1;
    }
    var key := (b: Address) => b;
    assert forall j :: i <= j < |boundaries| ==> key(boundaries[i]) <= key(boundaries[j]);
  }

  /** `f`, reported with lines `before`, has its sizes. */
  ghost predicate Done(boundaries: seq<Address>, f: Function, before: seq<Line>)
    reads f
  {
    IsSize(boundaries, f.address, f.size) && LinesDone(before, f.lines, Plus(f.address, f.size))
  }

  /** `f` is the reported function `r`, with sizes. */
  ghost predicate Sized(r: Reported, boundaries: seq<Address>, f: Function)
    reads f
  {
    f.name == r.name && f.address == r.address && Done(boundaries, f, r.lines)
  }

  /** `p` lists the numbers below `n`, each once. */
  ghost predicate IsPermutation(p: seq<nat>, n: nat)
    ensures IsPermutation(p, n) ==> |p| == n && forall i :: 0 <= i < n ==> p[i] < n
  {
    |p| == n && Distinct(p) && (forall i :: 0 <= i < n ==> p[i] < n) && forall k: nat :: k < n ==> k in p
  }

  /** `fs` are the functions `rs`, one for one in the order `p`, with sizes. */
  ghost predicate SizedInOrder(rs: seq<Reported>, p: seq<nat>, boundaries: seq<Address>, fs: seq<Function>)
    reads fs
  {
    && |fs| == |rs| && IsPermutation(p, |rs|)
    && forall i :: 0 <= i < |fs| ==> Sized(rs[p[i]], boundaries, fs[i])
  }

  ghost predicate AllSized(rs: seq<Reported>, boundaries: seq<Address>, fs: seq<Function>)
    reads fs
  {
    exists p :: SizedInOrder(rs, p, boundaries, fs)
  }

  /** `before` holds the lines that the function objects had when they were as reported. */
  ghost predicate Remembered(rs: seq<Reported>, fs: seq<Function>, before: map<Function, seq<Line>>) {
    |rs| == |fs| && forall i :: 0 <= i < |fs| ==> RemembersOne(rs[i], fs[i], before)
  }

  ghost predicate RemembersOne(r: Reported, f: Function, before: map<Function, seq<Line>>) {
    f in before && r == Reported(f.name, f.address, before[f])
  }

  ghost function IndexOf<T>(s: seq<T>, x: T): (i: nat)
    requires x in s
    ensures i < |s| && s[i] == x
  {
    var i :| 0 <= i < |s| && s[i] == x;
    i
  }

  /** Where the elements of one sequence stand in another. */
  ghost function Places<T>(sorted: seq<T>, s: seq<T>): (p: seq<nat>)
    requires forall x :: x in sorted ==> x in s
    ensures |p| == |sorted| && forall i :: 0 <= i < |p| ==> p[i] < |s| && s[p[i]] == sorted[i]
  {
    seq(|sorted|, i requires 0 <= i < |sorted| => IndexOf(s, sorted[i]))
  }

  lemma PlacesPermute<T>(sorted: seq<T>, s: seq<T>)
    requires Distinct(s) && Distinct(sorted) && |s| == |sorted| && forall x :: x in sorted <==> x in s
    ensures IsPermutation(Places(sorted, s), |s|)
  {
    var p := Places(sorted, s);
    forall i, j | 0 <= i < j < |p| ensures p[i] != p[j] {
      assert sorted[i] != sorted[j];
    }
    forall k: nat | k < |s| ensures k in p {
      assert s[k] in sorted;
      var i :| 0 <= i < |sorted| && sorted[i] == s[k];
      assert s[p[i]] == s[k] && p[i] == k;
    }
  }

  lemma AllAreSized(rs: seq<Reported>, boundaries: seq<Address>, fs: seq<Function>, finished: seq<Function>,
                    before: map<Function, seq<Line>>)
    requires Remembered(rs, fs, before) && multiset(finished) == multiset(fs) && Distinct(fs)
    requires forall f :: f in finished ==> f in before && Done(boundaries, f, before[f])
    ensures AllSized(rs, boundaries, finished)
  {
    hide Done, Distinct, IsPermutation;
    assert |multiset(finished)| == |finished| && |multiset(fs)| == |fs|;
    SameElements(finished, fs);
    DistinctPermutation(fs, finished);
    PlacesPermute(finished, fs);
    var p := Places(finished, fs);
    forall i | 0 <= i < |finished| ensures Sized(rs[p[i]], boundaries, finished[i]) {
      assert finished[i] in finished && RemembersOne(rs[p[i]], fs[p[i]], before);
    }
    assert SizedInOrder(rs, p, boundaries, finished);
  }

  ghost predicate NoOverlap(fs: seq<Function>)
    reads fs
  {
    forall f, g :: f in fs && g in fs && f.address != g.address ==>
      forall x :: !(f.Bytes().Has(x) && g.Bytes().Has(x))
  }

  ghost function LinesNow(fs: seq<Function>): map<Function, seq<Line>>
    reads fs
  {
    map f: Function | f in fs :: f.lines
  }

  ghost predicate LinesAre(fs: seq<Function>, before: map<Function, seq<Line>>)
    reads fs
  {
    forall f :: f in fs ==> f in before && before[f] == f.lines && Unsized(f.lines) == f.lines
  }

  lemma Permuted(fs: seq<Function>, sorted: seq<Function>, before: map<Function, seq<Line>>)
    requires multiset(sorted) == multiset(fs) && Distinct(fs) && LinesAre(fs, before)
    ensures Distinct(sorted) && LinesAre(sorted, before)
    ensures forall j :: 0 <= j < |sorted| ==> sorted[j] in fs
  {
    DistinctPermutation(fs, sorted);
    SameElements(sorted, fs);
  }

  /** In which order the boundaries are does not matter. */
  lemma SameBoundaries(a: seq<Address>, b: seq<Address>, rs: seq<Reported>, fs: seq<Function>)
    requires (forall x :: x in a <==> x in b) && AllSized(rs, a, fs)
    ensures AllSized(rs, b, fs)
  {
    hide LinesDone, Distinct;
    var p :| SizedInOrder(rs, p, a, fs);
    forall i | 0 <= i < |fs| ensures Sized(rs[p[i]], b, fs[i]) {
      assert Sized(rs[p[i]], a, fs[i]);
      SameSize(a, b, fs[i].address, fs[i].size);
    }
    assert SizedInOrder(rs, p, b, fs);
  }

  lemma SameSize(a: seq<Address>, b: seq<Address>, address: Address, size: Address)
    requires (forall x :: x in a <==> x in b) && IsSize(a, address, size)
    ensures IsSize(b, address, size)
  {
  }

  function ByAddress(): Function -> int {
    (f: Function) => f.address
  }

  lemma OrderedByAddress(fs: seq<Function>)
    requires Ordered(fs, ByAddress())
    ensures forall i, j :: 0 <= i < j < |fs| ==> fs[i].address <= fs[j].address
  {
    var key := ByAddress();
    assert forall i, j :: 0 <= i < j < |fs| ==> key(fs[i]) <= key(fs[j]);
  }

  lemma SizedNeverOverlap(rs: seq<Reported>, boundaries: seq<Address>, fs: seq<Function>)
    requires AllSized(rs, boundaries, fs) && forall r :: r in rs ==> r.address in boundaries
    ensures NoOverlap(fs)
  {
    var p :| SizedInOrder(rs, p, boundaries, fs);
    forall f, g | f in fs && g in fs && f.address != g.address
      ensures forall x :: !(f.Bytes().Has(x) && g.Bytes().Has(x))
    {
      var i, j := IndexOf(fs, f), IndexOf(fs, g);
      assert Sized(rs[p[i]], boundaries, f) && Sized(rs[p[j]], boundaries, g);
      NeverOverlap(boundaries, f.address, f.size, g.address, g.size);
    }
  }

  lemma DistinctFrom<T>(s: seq<T>, i: nat)
    requires Distinct(s) && i < |s|
    ensures forall j :: 0 <= j < |s| && j != i ==> s[j] != s[i]
  {
  }

  lemma OneMoreApart<T>(s: seq<T>, x: T)
    requires Distinct(s) && x !in s
    ensures Distinct(s + [x])
  {
  }

  ghost function Summary(f: Function): Reported
    reads f
  {
    Reported(f.name, f.address, f.lines)
  }

  ghost predicate Same(fs: seq<Function>, rs: seq<Reported>)
    reads fs
  {
    |fs| == |rs| && forall i :: 0 <= i < |fs| ==> Summary(fs[i]) == rs[i]
  }

  lemma GatherMore(f: Format, trace: seq<Event>, e: Event)
    ensures Gather(f, trace + [e]) == GatherOne(f, Gather(f, trace), e)
    ensures PlaceAfter(trace + [e]) == NextPlace(PlaceAfter(trace), e)
  {
    assert (trace + [e])[..|trace|] == trace;
  }

  class StabsToModule {
    const format: Format  // what the names point into
    var functions: seq<Function>
    var boundaries: seq<Address>
    var inCompilationUnit: bool
    var compUnitBaseAddress: Address
    var currentFunction: Function?
    var currentSourceFile: Option<string>
    var currentSourceFileName: Option<nat>
    ghost var told: seq<Event>

    constructor (format: Format)
      ensures this.format == format && Valid() && told == [] && functions == [] && currentFunction == null
    {
      this.format := format;
      functions, boundaries, inCompilationUnit, compUnitBaseAddress := [], [], false, 0;
      currentFunction, currentSourceFile, currentSourceFileName := null, None, None;
      told := [];
    }

    /** The function objects are all different. */
    ghost predicate Apart()
      reads this
    {
      Distinct(functions) && (currentFunction != null ==> currentFunction !in functions)
    }

    /** The fields say where the trace is. */
    ghost predicate InPlace()
      reads this
    {
      var p := PlaceAfter(told);
      && p != Wrong && (inCompilationUnit <==> p != Nowhere) && (currentFunction != null <==> p == Body)
      && (currentSourceFile.Some? <==> p != Nowhere) && (currentSourceFileName.Some? <==> p != Nowhere)
      && (currentSourceFile.Some? ==> currentSourceFile.value == format.TextAt(currentSourceFileName.value))
    }

    /** We hold what we have been told. */
    ghost predicate HoldsAll()
      reads this, functions, currentFunction
    {
      var g := Gather(format, told);
      && Same(functions, g.kept) && boundaries == g.boundaries && compUnitBaseAddress == g.base
      && g.current == if currentFunction == null then None else Some(Summary(currentFunction))
    }

    ghost predicate Valid()
      reads this, functions, currentFunction
    {
      Apart() && InPlace() && HoldsAll()
    }

    /** The next call may be `e`. */
    ghost predicate Expects(e: Event)
      reads this
    {
      NextPlace(PlaceAfter(told), e) != Wrong
    }

    method StartCompilationUnit(name: nat, address: Address, buildDirectory: Option<nat>) returns (ok: bool)
      requires Valid() && Expects(Event.StartCompilationUnit(name, address, buildDirectory))
      modifies this
      ensures Valid() && ok && told == old(told) + [Event.StartCompilationUnit(name, address, buildDirectory)]
      ensures functions == old(functions) && currentFunction == old(currentFunction)
    {
      hide Gather, PlaceAfter, Format.TextAt, Distinct;
      GatherMore(format, told, Event.StartCompilationUnit(name, address, buildDirectory));
      assert !inCompilationUnit;
      inCompilationUnit := true;
      currentSourceFileName, currentSourceFile := Some(name), Some(format.TextAt(name));
      compUnitBaseAddress := address;
      boundaries := boundaries + [address];
      told := told + [Event.StartCompilationUnit(name, address, buildDirectory)];
      ok := true;
    }

    method EndCompilationUnit(address: Address) returns (ok: bool)
      requires Valid() && Expects(Event.EndCompilationUnit(address))
      modifies this
      ensures Valid() && ok && told == old(told) + [Event.EndCompilationUnit(address)]
      ensures functions == old(functions) && currentFunction == old(currentFunction)
    {
      hide Gather, PlaceAfter, Format.TextAt, Distinct;
      GatherMore(format, told, Event.EndCompilationUnit(address));
      assert inCompilationUnit;
      inCompilationUnit := false;
      compUnitBaseAddress := 0;
      currentSourceFile, currentSourceFileName := None, None;
      if address != 0 {
        boundaries := boundaries + [address];
      }
      told := told + [Event.EndCompilationUnit(address)];
      ok := true;
    }

    method StartFunction(name: string, address: Address) returns (ok: bool)
      requires Valid() && Expects(Event.StartFunction(name, address))
      modifies this
      ensures Valid() && ok && told == old(told) + [Event.StartFunction(name, address)]
      ensures functions == old(functions) && currentFunction != null && fresh(currentFunction)
    {
      hide Gather, PlaceAfter, Format.TextAt, Distinct;
      GatherMore(format, told, Event.StartFunction(name, address));
      assert currentFunction == null;
      currentFunction := new Function(name, address);
      boundaries := boundaries + [address];
      told := told + [Event.StartFunction(name, address)];
      ok := true;
    }

    method EndFunction(address: Address) returns (ok: bool)
      requires Valid() && Expects(Event.EndFunction(address))
      modifies this
      ensures Valid() && ok && told == old(told) + [Event.EndFunction(address)]
      ensures currentFunction == null && old(currentFunction) != null
      ensures functions == old(functions) +
        if old(currentFunction.address >= compUnitBaseAddress) then [old(currentFunction)] else []
    {
      hide Gather, PlaceAfter, Format.TextAt, Distinct;
      GatherMore(format, told, Event.EndFunction(address));
      assert currentFunction != null;
      var current: Function := currentFunction;
      OneMoreApart(functions, current);
      if current.address >= compUnitBaseAddress {
        functions := functions + [current];
      }
      currentFunction := null;
      if address != 0 {
        boundaries := boundaries + [address];
      }
      told := told + [Event.EndFunction(address)];
      ok := true;
    }

    method ReportLine(address: Address, name: nat, number: nat) returns (ok: bool)
      requires Valid() && Expects(LineAt(address, name, number))
      modifies this, currentFunction
      ensures Valid() && ok && told == old(told) + [LineAt(address, name, number)]
      ensures functions == old(functions) && currentFunction == old(currentFunction)
    {
      hide Gather, PlaceAfter, Format.TextAt, Distinct;
      GatherMore(format, told, LineAt(address, name, number));
      assert currentFunction != null;
      assert currentSourceFile.Some?;
      if Some(name) != currentSourceFileName {
        currentSourceFile, currentSourceFileName := Some(format.TextAt(name)), Some(name);
      }
      var line := Line(address, 0, currentSourceFile.value, number);
      currentFunction.lines := currentFunction.lines + [line];
      told := told + [LineAt(address, name, number)];
      ok := true;
    }

    /** A handler of this kind hears all that a reader reports. */
    method Hear(trace: seq<Event>)
      requires Valid() && told == [] && functions == [] && currentFunction == null && PlaceAfter(trace) != Wrong
      modifies this
      ensures Valid() && told == trace
      ensures fresh(functions) && (currentFunction != null ==> fresh(currentFunction))
    {
      for i := 0 to |trace|
        invariant Valid() && told == trace[..i]
        invariant fresh(functions) && (currentFunction != null ==> fresh(currentFunction))
      {
        PrefixNotWrong(trace, i + 1);
        assert trace[..i + 1][..i] == trace[..i] && trace[..i + 1] == trace[..i] + [trace[i]];
        var ok;
        match trace[i]
        case StartCompilationUnit(name, address, buildDirectory) =>
          ok := StartCompilationUnit(name, address, buildDirectory);
        case EndCompilationUnit(address) => ok := EndCompilationUnit(address);
        case StartFunction(name, address) => ok := StartFunction(name, address);
        case EndFunction(address) => ok := EndFunction(address);
        case LineAt(address, name, number) => ok := ReportLine(address, name, number);
      }
      assert trace[..|trace|] == trace;
    }

    /** Work out the size of a function and of its lines. */
    method SizeFunction(f: Function)
      requires Ordered(boundaries, (b: Address) => b) && Unsized(f.lines) == f.lines
      modifies f
      ensures Done(boundaries, f, old(f.lines))
    {
      var boundary := UpperBound(boundaries, f.address);
      if boundary < |boundaries| {
        f.size := Minus(boundaries[boundary], f.address);
        NextBoundary(boundaries, f.address, boundary);
      } else {
        f.size := FALLBACK_SIZE;
      }
      if f.lines != [] {
        var sorted := StableSort(f.lines, AddressOf());
        SortedUnsized(f.lines, sorted);
        f.lines := sorted;
        SizeLines(f, Plus(f.address, f.size));
      }
    }

    static method SizeLines(f: Function, end: Address)
      requires f.lines != [] && Unsized(f.lines) == f.lines
      modifies f`lines
      ensures Unsized(f.lines) == old(f.lines) && LinesReach(f.lines, end)
    {
      var last := |f.lines| - 1;
      for i := 0 to last
        invariant |f.lines| == last + 1 && Unsized(f.lines) == old(f.lines)
        invariant forall j :: 0 <= j < i ==> f.lines[j].size == Minus(EndOfLine(f.lines, end, j), f.lines[j].address)
      {
        f.lines := Resized(f.lines, i, Minus(f.lines[i + 1].address, f.lines[i].address));
      }
      f.lines := Resized(f.lines, last, Minus(end, f.lines[last].address));
    }

    lemma ReadyToSize(before: map<Function, seq<Line>>)
      requires Valid() && before == LinesNow(functions)
      ensures Remembered(Gather(format, told).kept, functions, before) && LinesAre(functions, before)
    {
      GatheredUnsized(format, told);
      forall i | 0 <= i < |functions| ensures Unsized(functions[i].lines) == functions[i].lines {
        assert Gather(format, told).kept[i] == Summary(functions[i]);
      }
    }

    /** Once all is reported, every function and line gets its size. */
    method Finalize() returns (finished: seq<Function>)
      requires Valid()
      modifies this, functions
      ensures multiset(finished) == multiset(old(functions)) && functions == [] && told == old(told)
      ensures multiset(boundaries) == multiset(old(boundaries)) && Ordered(finished, ByAddress())
      ensures forall i, j :: 0 <= i < j < |finished| ==> finished[i].address <= finished[j].address
      ensures var g := Gather(format, told); AllSized(g.kept, g.boundaries, finished) && NoOverlap(finished)
    {
      hide Done, Distinct, Ordered, AllSized, NoOverlap, Gather, LinesNow, LinesAre, Remembered;
      ghost var before, rs := LinesNow(functions), Gather(format, told).kept;
      ReadyToSize(before);
      FunctionsAtBoundaries(format, told);
      boundaries := Sort(boundaries, (b: Address) => b);
      functions := Sort(functions, ByAddress());
      Permuted(old(functions), functions, before);
      SameElements(boundaries, old(boundaries));
      SizeFunctions(before);
      AllAreSized(rs, boundaries, old(functions), functions, before);
      SizedNeverOverlap(rs, boundaries, functions);
      SameBoundaries(boundaries, Gather(format, told).boundaries, rs, functions);
      finished, functions := functions, [];
      OrderedByAddress(finished);
    }

    /** The loop of Finalize. */
    method SizeFunctions(ghost before: map<Function, seq<Line>>)
      requires Ordered(boundaries, (b: Address) => b) && Distinct(functions)
      requires LinesAre(functions, before)
      modifies functions
      ensures forall f :: f in functions ==> f in before && Done(boundaries, f, before[f])
    {
      hide Ordered, Distinct, Done, Unsized;
      for i := 0 to |functions|
        invariant forall j :: i <= j < |functions| ==> functions[j].lines == before[functions[j]]
        invariant forall j :: 0 <= j < i ==> Done(boundaries, functions[j], before[functions[j]])
      {
        DistinctFrom(functions, i);
        SizeFunction(functions[i]);
      }
    }
  }
}
