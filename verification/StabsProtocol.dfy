/** What a `.stab` section says, read one entry at a time. The reader in StabsReader looks ahead and calls
    itself instead; that it reports the same events is proved there. */
module StabsProtocol {
  import opened Addresses
  import opened CStrings
  import opened StabsEntries
  import opened SymbolModule

  const N_UNDF := 0x00
  const N_FUN := 0x24
  const N_SLINE := 0x44
  const N_SO := 0x64
  const N_SOL := 0x84

  /** The calls of a `StabsHandler`. File names are positions in the string section. */
  datatype Event =
    | StartCompilationUnit(name: nat, address: Address, buildDirectory: Option<nat>)
    | EndCompilationUnit(address: Address)
    | StartFunction(functionName: string, address: Address)
    | EndFunction(address: Address)
    | LineAt(address: Address, name: nat, number: nat)

  datatype Mode = Outside | AfterDirectory(directory: nat) | InUnit | InFunction(address: Address)

  datatype State = State(mode: Mode, trace: seq<Event>, file: nat, queued: seq<Event>,
                         stringOffset: Address, nextOffset: Address)

  /** The string section, and whether each unit has its own part of it. */
  datatype Format = Format(strings: string, unitized: bool) {
    /** A section that holds at least one string, and ends one; no array is larger than 2^63. */
    predicate Valid() {
      0 < |strings| <= TWO_64 / 2 && strings[|strings| - 1] == NUL
    }

    function TextAt(p: nat): string {
      if p <= |strings| then Text(strings[p..]) else ""
    }

    function NameAt(stringOffset: Address, e: Entry): nat {
      var offset := Plus(stringOffset, e.nameOffset);
      if offset < |strings| then offset else 0
    }

    function NameOf(s: State, e: Entry): nat {
      NameAt(s.stringOffset, e)
    }

    function TextOf(s: State, e: Entry): string {
      TextAt(NameOf(s, e))
    }
  }

  predicate IsDirectory(name: string) {
    name != "" && name[|name| - 1] == '/'
  }

  /** A function's name ends where its type begins. */
  function UpToColon(s: string): (name: string)
    ensures name <= s && ':' !in name && (|name| < |s| ==> s[|name|] == ':')
  {
    if s == [] || s[0] == ':' then [] else [s[0]] + UpToColon(s[1..])
  }

  /** Line numbers above 32767 are stored as negative numbers. */
  function LineNumber(e: Entry): nat {
    e.descriptor % 0x10000
  }

  function Emit(s: State, e: Event): State {
    s.(trace := s.trace + [e])
  }

  function StartUnit(f: Format, s: State, e: Entry, directory: Option<nat>): State {
    var name := f.NameOf(s, e);
    Emit(s.(mode := InUnit, file := name), StartCompilationUnit(name, e.value, directory))
  }

  function EndUnit(s: State, address: Address): State {
    Emit(s.(mode := Outside, queued := []), EndCompilationUnit(address))
  }

  function BeginFunction(f: Format, s: State, e: Entry): State {
    var begun := Emit(s, StartFunction(UpToColon(f.TextOf(s, e)), e.value));
    begun.(mode := InFunction(e.value), trace := begun.trace + s.queued, queued := [])
  }

  function LeaveFunction(s: State, address: Address): State {
    Emit(s.(mode := InUnit), EndFunction(address))
  }

  function OutsideStep(f: Format, s: State, e: Entry): State {
    var name := f.TextOf(s, e);
    if e.kind == N_SO then
      if IsDirectory(name) then s.(mode := AfterDirectory(f.NameOf(s, e)))
      else if name == "" then s
      else StartUnit(f, s, e, None)
    else if e.kind == N_UNDF && f.unitized then s.(stringOffset := s.nextOffset, nextOffset := e.value)
    else s
  }

  function UnitStep(f: Format, s: State, e: Entry): State {
    if e.kind == N_SO then
      if f.TextOf(s, e) == "" then EndUnit(s, e.value) else OutsideStep(f, EndUnit(s, 0), e)
    else if e.kind == N_FUN then BeginFunction(f, s, e)
    else if e.kind == N_SLINE then s.(queued := s.queued + [LineAt(e.value, s.file, LineNumber(e))])
    else if e.kind == N_SOL then s.(file := f.NameOf(s, e))
    else s
  }

  function Step(f: Format, s: State, e: Entry): State {
    match s.mode
    case Outside => OutsideStep(f, s, e)
    case AfterDirectory(directory) =>
      var out := s.(mode := Outside);
      if e.kind != N_SO then OutsideStep(f, out, e)
      else if f.TextOf(s, e) == "" then out
      else StartUnit(f, s, e, Some(directory))
    case InUnit => UnitStep(f, s, e)
    case InFunction(address) =>
      if e.kind == N_FUN && f.TextOf(s, e) == "" then LeaveFunction(s, Plus(address, e.value))
      else if e.kind == N_FUN || e.kind == N_SO then UnitStep(f, LeaveFunction(s, e.value), e)
      else if e.kind == N_SLINE then Emit(s, LineAt(Plus(address, e.value), s.file, LineNumber(e)))
      else if e.kind == N_SOL then s.(file := f.NameOf(s, e))
      else s
  }

  function Finish(s: State): State {
    match s.mode
    case Outside => s
    case AfterDirectory(_) => s.(mode := Outside)
    case InUnit => EndUnit(s, 0)
    case InFunction(_) => EndUnit(LeaveFunction(s, 0), 0)
  }

  /** The rest of the section, and its end. */
  function Complete(f: Format, s: State, es: seq<Entry>): State
    decreases |es|
  {
    if es == [] then Finish(s) else Complete(f, Step(f, s, es[0]), es[1..])
  }

  const START := State(Outside, [], 0, [], 0, 0)

  lemma OutsideTraceGrows(f: Format, s: State, e: Entry)
    ensures s.trace <= OutsideStep(f, s, e).trace
  {
  }

  lemma UnitTraceGrows(f: Format, s: State, e: Entry)
    ensures s.trace <= UnitStep(f, s, e).trace
  {
    OutsideTraceGrows(f, EndUnit(s, 0), e);
  }

  lemma StepTraceGrows(f: Format, s: State, e: Entry)
    ensures s.trace <= Step(f, s, e).trace
  {
    hide OutsideStep, UnitStep;
    OutsideTraceGrows(f, s, e);
    OutsideTraceGrows(f, s.(mode := Outside), e);
    UnitTraceGrows(f, s, e);
    if s.mode.InFunction? {
      UnitTraceGrows(f, LeaveFunction(s, e.value), e);
    }
  }

  lemma {:induction false} TraceGrows(f: Format, s: State, es: seq<Entry>)
    ensures s.trace <= Complete(f, s, es).trace
    decreases |es|
  {
    hide Step;
    if es != [] {
      StepTraceGrows(f, s, es[0]);
      TraceGrows(f, Step(f, s, es[0]), es[1..]);
    }
  }

  /** Where a handler is after some calls, by the order they must come in:
      (StartCompilationUnit (StartFunction Line* EndFunction)* EndCompilationUnit)* */
  datatype Place = Nowhere | Unit | Body | Wrong

  function NextPlace(p: Place, e: Event): Place {
    match e
    case StartCompilationUnit(_, _, _) => if p.Nowhere? then Unit else Wrong
    case EndCompilationUnit(_) => if p.Unit? then Nowhere else Wrong
    case StartFunction(_, _) => if p.Unit? then Body else Wrong
    case EndFunction(_) => if p.Body? then Unit else Wrong
    case LineAt(_, _, _) => if p.Body? then Body else Wrong
  }

  function PlaceAfter(trace: seq<Event>): Place {
    if trace == [] then Nowhere else NextPlace(PlaceAfter(trace[..|trace| - 1]), trace[|trace| - 1])
  }

  function PlaceOf(m: Mode): Place {
    match m
    case Outside => Nowhere
    case AfterDirectory(_) => Nowhere
    case InUnit => Unit
    case InFunction(_) => Body
  }

  ghost predicate AllLines(es: seq<Event>) {
    forall e :: e in es ==> e.LineAt?
  }

  /** The trace is as the mode says, and lines are queued only between functions. */
  ghost predicate InStep(s: State) {
    PlaceAfter(s.trace) == PlaceOf(s.mode) && AllLines(s.queued) && (!s.mode.InUnit? ==> s.queued == [])
  }

  lemma OneMoreEvent(trace: seq<Event>, e: Event)
    ensures PlaceAfter(trace + [e]) == NextPlace(PlaceAfter(trace), e)
  {
    assert (trace + [e])[..|trace|] == trace;
  }

  lemma {:induction false} LinesStayInBody(trace: seq<Event>, lines: seq<Event>)
    requires PlaceAfter(trace).Body? && AllLines(lines)
    ensures PlaceAfter(trace + lines).Body?
  {
    if lines == [] {
      assert trace + lines == trace;
    } else {
      var n := |lines| - 1;
      assert lines[n] in lines;
      LinesStayInBody(trace, lines[..n]);
      assert trace + lines == trace + lines[..n] + [lines[n]];
      OneMoreEvent(trace + lines[..n], lines[n]);
    }
  }

  lemma LeaveInStep(s: State, address: Address)
    requires InStep(s) && s.mode.InFunction?
    ensures InStep(LeaveFunction(s, address))
  {
    OneMoreEvent(s.trace, EndFunction(address));
  }

  lemma EndInStep(s: State, address: Address)
    requires InStep(s) && s.mode.InUnit?
    ensures InStep(EndUnit(s, address))
  {
    OneMoreEvent(s.trace, EndCompilationUnit(address));
  }

  lemma StartInStep(f: Format, s: State, e: Entry, directory: Option<nat>)
    requires InStep(s) && PlaceOf(s.mode).Nowhere?
    ensures InStep(StartUnit(f, s, e, directory))
  {
    OneMoreEvent(s.trace, StartCompilationUnit(f.NameOf(s, e), e.value, directory));
  }

  lemma BeginInStep(f: Format, s: State, e: Entry)
    requires InStep(s) && s.mode.InUnit?
    ensures InStep(BeginFunction(f, s, e))
  {
    var start := StartFunction(UpToColon(f.TextOf(s, e)), e.value);
    OneMoreEvent(s.trace, start);
    LinesStayInBody(s.trace + [start], s.queued);
  }

  lemma OutsideInStep(f: Format, s: State, e: Entry)
    requires InStep(s) && s.mode.Outside?
    ensures InStep(OutsideStep(f, s, e))
  {
    StartInStep(f, s, e, None);
  }

  lemma UnitInStep(f: Format, s: State, e: Entry)
    requires InStep(s) && s.mode.InUnit?
    ensures InStep(UnitStep(f, s, e))
  {
    EndInStep(s, e.value);
    EndInStep(s, 0);
    OutsideInStep(f, EndUnit(s, 0), e);
    BeginInStep(f, s, e);
  }

  lemma StepInStep(f: Format, s: State, e: Entry)
    requires InStep(s)
    ensures InStep(Step(f, s, e))
  {
    match s.mode
    case Outside => OutsideInStep(f, s, e);
    case AfterDirectory(directory) =>
      OutsideInStep(f, s.(mode := Outside), e);
      StartInStep(f, s, e, Some(directory));
    case InUnit => UnitInStep(f, s, e);
    case InFunction(address) =>
      LeaveInStep(s, Plus(address, e.value));
      LeaveInStep(s, e.value);
      UnitInStep(f, LeaveFunction(s, e.value), e);
      OneMoreEvent(s.trace, LineAt(Plus(address, e.value), s.file, LineNumber(e)));
  }

  /** Whatever the entries, the calls come in the promised order, and the last unit is ended. */
  lemma {:induction false} CompleteConforms(f: Format, s: State, es: seq<Entry>)
    requires InStep(s)
    ensures PlaceAfter(Complete(f, s, es).trace) == Nowhere
    decreases |es|
  {
    if es == [] {
      if s.mode.InFunction? {
        LeaveInStep(s, 0);
        EndInStep(LeaveFunction(s, 0), 0);
      } else if s.mode.InUnit? {
        EndInStep(s, 0);
      }
    } else {
      StepInStep(f, s, es[0]);
      CompleteConforms(f, Step(f, s, es[0]), es[1..]);
    }
  }

  lemma {:induction false} PrefixNotWrong(trace: seq<Event>, n: nat)
    requires n <= |trace| && PlaceAfter(trace) != Wrong
    ensures PlaceAfter(trace[..n]) != Wrong
  {
    if n == |trace| {
      assert trace[..n] == trace;
    } else {
      var m := |trace| - 1;
      PrefixNotWrong(trace[..m], n);
      assert trace[..m][..n] == trace[..n];
    }
  }

  /** The line events of a trace. */
  function LinesOf(trace: seq<Event>): seq<Event> {
    if trace == [] then []
    else
      var rest, last := LinesOf(trace[..|trace| - 1]), trace[|trace| - 1];
      if last.LineAt? then rest + [last] else rest
  }

  /** The unit goes on to another function. */
  predicate FunctionAhead(es: seq<Entry>) {
    es != [] && es[0].kind != N_SO && (es[0].kind == N_FUN || FunctionAhead(es[1..]))
  }

  /** The line that the first entry stands for, if it must be reported: it must inside a function, or before
      another function of its unit; there its address is absolute. */
  function DueNow(s: State, es: seq<Entry>): seq<Event>
    requires es != []
  {
    var e := es[0];
    if e.kind != N_SLINE then []
    else if s.mode.InFunction? then [LineAt(Plus(s.mode.address, e.value), s.file, LineNumber(e))]
    else if s.mode.InUnit? && FunctionAhead(es[1..]) then [LineAt(e.value, s.file, LineNumber(e))]
    else []
  }

  function LinesDue(f: Format, s: State, es: seq<Entry>): seq<Event>
    decreases |es|
  {
    if es == [] then [] else DueNow(s, es) + LinesDue(f, Step(f, s, es[0]), es[1..])
  }

  function Waiting(s: State, es: seq<Entry>): seq<Event> {
    if s.mode.InUnit? && FunctionAhead(es) then s.queued else []
  }

  lemma {:induction false} LinesOfMore(trace: seq<Event>, more: seq<Event>)
    ensures LinesOf(trace + more) == LinesOf(trace) + LinesOf(more)
  {
    if more == [] {
      assert trace + more == trace;
    } else {
      var n := |more| - 1;
      LinesOfMore(trace, more[..n]);
      assert (trace + more)[..|trace| + n] == trace + more[..n];
    }
  }

  lemma {:induction false} LinesOfLines(lines: seq<Event>)
    requires AllLines(lines)
    ensures LinesOf(lines) == lines
  {
    if lines != [] {
      LinesOfLines(lines[..|lines| - 1]);
    }
  }

  lemma NoLine(trace: seq<Event>, e: Event)
    ensures LinesOf(trace + [e]) == if e.LineAt? then LinesOf(trace) + [e] else LinesOf(trace)
  {
    assert (trace + [e])[..|trace|] == trace;
  }

  lemma OutsideHasNoLine(f: Format, s: State, e: Entry)
    ensures LinesOf(OutsideStep(f, s, e).trace) == LinesOf(s.trace)
    ensures OutsideStep(f, s, e).queued == s.queued
  {
    NoLine(s.trace, StartCompilationUnit(f.NameOf(s, e), e.value, None));
  }

  lemma UnitDelivers(f: Format, s: State, es: seq<Entry>)
    requires InStep(s) && s.mode.InUnit? && es != []
    ensures var s' := UnitStep(f, s, es[0]);
      LinesOf(s'.trace) + Waiting(s', es[1..]) == LinesOf(s.trace) + Waiting(s, es) + DueNow(s, es)
  {
    var e := es[0];
    if e.kind == N_SO {
      NoLine(s.trace, EndCompilationUnit(e.value));
      NoLine(s.trace, EndCompilationUnit(0));
      OutsideHasNoLine(f, EndUnit(s, 0), e);
    } else if e.kind == N_FUN {
      var start := StartFunction(UpToColon(f.TextOf(s, e)), e.value);
      NoLine(s.trace, start);
      LinesOfMore(s.trace + [start], s.queued);
      LinesOfLines(s.queued);
    }
  }

  /** Outside units nothing waits. */
  lemma StepWaits(f: Format, s: State, es: seq<Entry>)
    requires InStep(s) && es != []
    ensures !s.mode.InUnit? ==> Waiting(s, es) == []
    ensures s.mode.Outside? || s.mode.AfterDirectory? ==> Waiting(Step(f, s, es[0]), es[1..]) == []
    ensures !s.mode.InUnit? ==> s.queued == []
  {
    OutsideHasNoLine(f, s, es[0]);
    OutsideHasNoLine(f, s.(mode := Outside), es[0]);
  }

  lemma StepDelivers(f: Format, s: State, es: seq<Entry>)
    requires InStep(s) && es != []
    ensures var s' := Step(f, s, es[0]);
      LinesOf(s'.trace) + Waiting(s', es[1..]) == LinesOf(s.trace) + Waiting(s, es) + DueNow(s, es)
  {
    hide UnitStep, OutsideStep, LinesOf, FunctionAhead, InStep;
    var e := es[0];
    StepWaits(f, s, es);
    match s.mode
    case Outside => OutsideHasNoLine(f, s, e);
    case AfterDirectory(directory) =>
      OutsideHasNoLine(f, s.(mode := Outside), e);
      NoLine(s.trace, StartCompilationUnit(f.NameOf(s, e), e.value, Some(directory)));
    case InUnit => UnitDelivers(f, s, es);
    case InFunction(address) =>
      NoLine(s.trace, EndFunction(Plus(address, e.value)));
      NoLine(s.trace, EndFunction(e.value));
      LeaveInStep(s, e.value);
      UnitDelivers(f, LeaveFunction(s, e.value), es);
      NoLine(s.trace, LineAt(Plus(address, e.value), s.file, LineNumber(e)));
  }

  lemma FinishDelivers(f: Format, s: State)
    ensures LinesOf(Complete(f, s, []).trace) == LinesOf(s.trace)
  {
    NoLine(s.trace, EndCompilationUnit(0));
    NoLine(s.trace, EndFunction(0));
    NoLine(s.trace + [EndFunction(0)], EndCompilationUnit(0));
  }

  lemma Regroup(a: seq<Event>, b: seq<Event>, c: seq<Event>)
    ensures a + b + c == a + (b + c)
  {
  }

  lemma UnfoldDue(f: Format, s: State, es: seq<Entry>)
    requires es != []
    ensures LinesDue(f, s, es) == DueNow(s, es) + LinesDue(f, Step(f, s, es[0]), es[1..])
    ensures Complete(f, s, es) == Complete(f, Step(f, s, es[0]), es[1..])
  {
  }

  /** Exactly the lines due are reported, each once and in order. */
  lemma {:induction false} CompleteDelivers(f: Format, s: State, es: seq<Entry>)
    requires InStep(s)
    ensures LinesOf(Complete(f, s, es).trace) == LinesOf(s.trace) + Waiting(s, es) + LinesDue(f, s, es)
    decreases |es|
  {
    if es == [] {
      FinishDelivers(f, s);
    } else {
      hide *;
      var s' := Step(f, s, es[0]);
      StepInStep(f, s, es[0]);
      StepDelivers(f, s, es);
      CompleteDelivers(f, s', es[1..]);
      UnfoldDue(f, s, es);
      Regroup(LinesOf(s.trace) + Waiting(s, es), DueNow(s, es), LinesDue(f, s', es[1..]));
    }
  }
}
