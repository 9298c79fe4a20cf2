/** Reading STABS debugging information and reporting it to a handler. */
module StabsReader {
  import opened Addresses
  import opened StabsEntries
  import opened StabsProtocol
  import opened SymbolModule

  /** A handler that answers each call by what it has been told so far, that call included. */
  class StabsHandler {
    const answer: seq<Event> -> bool
    var trace: seq<Event>

    constructor (answer: seq<Event> -> bool)
      ensures this.answer == answer && trace == []
    {
      this.answer, trace := answer, [];
    }

    method Tell(e: Event) returns (ok: bool)
      modifies this
      ensures trace == old(trace) + [e] && ok == answer(trace)
    {
      trace := trace + [e];
      ok := answer(trace);
    }
  }

  /** All the calls so far were answered with true. */
  ghost predicate Agreed(answer: seq<Event> -> bool, trace: seq<Event>) {
    forall n :: 0 < n <= |trace| ==> answer(trace[..n])
  }

  /** Only the last call was answered with false. */
  ghost predicate Stopped(answer: seq<Event> -> bool, trace: seq<Event>) {
    trace != [] && !answer(trace) && Agreed(answer, trace[..|trace| - 1])
  }

  lemma AgreeOnce(answer: seq<Event> -> bool, trace: seq<Event>, e: Event)
    requires Agreed(answer, trace)
    ensures if answer(trace + [e]) then Agreed(answer, trace + [e]) else Stopped(answer, trace + [e])
  {
    assert (trace + [e])[..|trace|] == trace && (trace + [e])[..|trace| + 1] == trace + [e];
    assert forall n :: 0 < n <= |trace| ==> (trace + [e])[..n] == trace[..n];
  }

  lemma StepOver(f: Format, s: State, es: seq<Entry>)
    requires es != []
    ensures Complete(f, s, es) == Complete(f, Step(f, s, es[0]), es[1..])
  {
  }

  /** A function ends where an entry says so, before that entry is dealt with. */
  lemma LeaveEarly(f: Format, s: State, es: seq<Entry>)
    requires s.mode.InFunction?
    requires es != [] ==> es[0].kind == N_SO || (es[0].kind == N_FUN && f.TextOf(s, es[0]) != "")
    ensures Complete(f, s, es) == Complete(f, LeaveFunction(s, if es == [] then 0 else es[0].value), es)
  {
  }

  /** And so does a unit. */
  lemma EndEarly(f: Format, s: State, es: seq<Entry>)
    requires s.mode.InUnit? && (es != [] ==> es[0].kind == N_SO && f.TextOf(s, es[0]) != "")
    ensures Complete(f, s, es) == Complete(f, EndUnit(s, 0), es)
  {
  }

  /** A directory counts only if the unit follows at once. */
  lemma ForgetDirectory(f: Format, s: State, es: seq<Entry>)
    requires s.mode.AfterDirectory? && (es != [] ==> es[0].kind != N_SO)
    ensures Complete(f, s, es) == Complete(f, s.(mode := Outside), es)
  {
  }

  lemma DirectoryStep(f: Format, s: State, e: Entry)
    requires s.mode.Outside? && e.kind == N_SO && IsDirectory(f.TextOf(s, e))
    ensures Step(f, s, e) == s.(mode := AfterDirectory(f.NameOf(s, e)))
  {
  }

  lemma StrayStep(f: Format, s: State, e: Entry)
    requires (s.mode.Outside? || s.mode.AfterDirectory?) && e.kind == N_SO && f.TextOf(s, e) == ""
    ensures Step(f, s, e) == s.(mode := Outside)
  {
  }

  lemma StartStep(f: Format, s: State, e: Entry, directory: Option<nat>)
    requires e.kind == N_SO && f.TextOf(s, e) != ""
    requires match directory
             case None => s.mode.Outside? && !IsDirectory(f.TextOf(s, e))
             case Some(d) => s.mode == AfterDirectory(d)
    ensures Step(f, s, e) == StartUnit(f, s, e, directory)
  {
  }

  lemma BodyStep(f: Format, s: State, e: Entry)
    requires s.mode.InFunction? && e.kind != N_SO && (e.kind == N_FUN ==> f.TextOf(s, e) == "")
    ensures Step(f, s, e)
      == if e.kind == N_FUN then LeaveFunction(s, Plus(s.mode.address, e.value))
         else if e.kind == N_SLINE then Emit(s, LineAt(Plus(s.mode.address, e.value), s.file, LineNumber(e)))
         else if e.kind == N_SOL then s.(file := f.NameOf(s, e))
         else s
  {
  }

  lemma UnitBodyStep(f: Format, s: State, e: Entry)
    requires s.mode.InUnit? && e.kind != N_FUN && (e.kind == N_SO ==> f.TextOf(s, e) == "")
    ensures Step(f, s, e)
      == if e.kind == N_SO then EndUnit(s, e.value)
         else if e.kind == N_SLINE then s.(queued := s.queued + [LineAt(e.value, s.file, LineNumber(e))])
         else if e.kind == N_SOL then s.(file := f.NameOf(s, e))
         else s
  {
  }

  class StabsReader {
    const format: Format
    const entries: EntryIterator
    const handler: StabsHandler
    var stringOffset: Address
    var nextOffset: Address
    var currentSourceFile: nat
    var queuedLines: seq<Event>
    ghost const expected: State  // what the whole section says

    constructor (stab: seq<Byte>, strings: string, bigEndian: bool, valueSize: nat, unitized: bool,
                 handler: StabsHandler)
      requires GoodValueSize(valueSize) && Format(strings, unitized).Valid() && handler.trace == []
      ensures At(Outside) && fresh(entries) && fresh(entries.cursor) && this.handler == handler
      ensures format == Format(strings, unitized)
      ensures expected == Complete(format, START, Entries(stab, bigEndian, valueSize))
    {
      format := Format(strings, unitized);
      entries := new EntryIterator(stab, bigEndian, valueSize);
      this.handler := handler;
      stringOffset, nextOffset, currentSourceFile, queuedLines := 0, 0, 0, [];
      expected := Complete(Format(strings, unitized), START, Entries(stab, bigEndian, valueSize));
      new;
      assert Left() == entries.All();
    }

    /** The entries not dealt with yet. */
    ghost function Left(): seq<Entry>
      requires entries.Valid()
      reads entries, entries.cursor
    {
      entries.All()[entries.index..]
    }

    ghost function Now(mode: Mode): State
      reads this, handler
    {
      State(mode, handler.trace, currentSourceFile, queuedLines, stringOffset, nextOffset)
    }

    /** From state `s`, what is left completes what the section says. */
    ghost predicate Continues(s: State)
      reads entries, entries.cursor
    {
      entries.Valid() && format.Valid() && Complete(format, s, Left()) == expected
    }

    ghost predicate At(mode: Mode)
      reads this, handler, entries, entries.cursor
    {
      Agreed(handler.answer, handler.trace) && Continues(Now(mode))
    }

    /** The handler told us to stop, having been told nothing wrong. */
    ghost predicate Stop()
      reads handler
    {
      Stopped(handler.answer, handler.trace) && handler.trace <= expected.trace
    }

    function SymbolString(): (name: nat)
      requires entries.Valid()
      reads this, entries, entries.cursor
      ensures format.Valid() ==> name == format.NameAt(stringOffset, entries.entry)
    {
      var offset := Plus(stringOffset, entries.entry.nameOffset);
      if offset >= TWO_64 / 2 || offset >= |format.strings| then 0 else offset
    }

    method Advance(ghost s: State)
      requires Continues(s) && !entries.atEnd
      modifies entries, entries.cursor
      ensures Continues(Step(format, s, old(entries.entry))) && |Left()| == old(|Left()|) - 1
    {
      hide Complete, Step;
      StepOver(format, s, Left());
      ghost var left := Left();
      entries.Advance();
      assert Left() == left[1..];
    }

    method Report(e: Event) returns (ok: bool)
      requires Agreed(handler.answer, handler.trace) && handler.trace + [e] <= expected.trace
      modifies handler
      ensures handler.trace == old(handler.trace) + [e]
      ensures if ok then Agreed(handler.answer, handler.trace) else Stop()
    {
      AgreeOnce(handler.answer, handler.trace, e);
      ok := handler.Tell(e);
    }

    /** What is reported on the way to a state that continues is right. */
    lemma Ahead(s: State)
      requires Continues(s)
      ensures s.trace <= expected.trace
    {
      TraceGrows(format, s, Left());
    }

    lemma Coming(s: State)
      requires Continues(s) && !entries.atEnd
      ensures Step(format, s, entries.entry).trace <= expected.trace
    {
      StepOver(format, s, Left());
      TraceGrows(format, Step(format, s, entries.entry), Left()[1..]);
    }

    method Process() returns (ok: bool)
      requires At(Outside)
      modifies this, handler, entries, entries.cursor
      ensures ok ==> Agreed(handler.answer, handler.trace) && handler.trace == expected.trace
      ensures !ok ==> Stop()
    {
      while !entries.atEnd
        invariant At(Outside)
        decreases |Left()|
      {
        if entries.entry.kind == N_SO {
          var on := ProcessCompilationUnit();
          if !on {
            return false;
          }
        } else if entries.entry.kind == N_UNDF && format.unitized {
          ghost var s := Now(Outside);
          stringOffset, nextOffset := nextOffset, entries.entry.value;
          Advance(s);
        } else {
          Advance(Now(Outside));
        }
      }
      ok := true;
    }

    method ProcessCompilationUnit() returns (ok: bool)
      requires At(Outside) && !entries.atEnd && entries.entry.kind == N_SO
      modifies this, handler, entries, entries.cursor
      ensures ok ==> At(Outside) && |Left()| < old(|Left()|)
      ensures !ok ==> Stop()
    {
      hide Complete, Agreed, Step, Format.NameAt, Format.TextAt, IsDirectory;
      var buildDirectory: Option<nat> := None;
      ghost var s := Now(Outside);
      var name := SymbolString();
      if IsDirectory(format.TextAt(name)) {
        DirectoryStep(format, s, entries.entry);
        buildDirectory := Some(name);
        Advance(s);
        s := Now(AfterDirectory(name));
      }
      if entries.atEnd || entries.entry.kind != N_SO {
        ForgetDirectory(format, s, Left());
        return true;
      }
      name := SymbolString();
      if format.TextAt(name) == "" {
        StrayStep(format, s, entries.entry);
        Advance(s);
        return true;
      }
      currentSourceFile := name;
      StartStep(format, s, entries.entry, buildDirectory);
      Coming(s);
      ok := Report(StartCompilationUnit(currentSourceFile, entries.entry.value, buildDirectory));
      if !ok {
        return;
      }
      Advance(s);
      ok := ProcessUnitBody();
    }

    /** The rest of ProcessCompilationUnit: the body of the unit, up to the next N_SO, and its end. */
    method ProcessUnitBody() returns (ok: bool)
      requires At(InUnit)
      modifies this, handler, entries, entries.cursor
      ensures ok ==> At(Outside) && |Left()| <= old(|Left()|)
      ensures !ok ==> Stop()
    {
      hide Complete, Agreed, Step, Format.NameAt, Format.TextAt;
      while !entries.atEnd && entries.entry.kind != N_SO
        invariant At(InUnit) && |Left()| <= old(|Left()|)
        decreases |Left()|
      {
        ghost var s := Now(InUnit);
        if entries.entry.kind == N_FUN {
          ok := ProcessFunction();
          if !ok {
            return;
          }
          continue;
        }
        UnitBodyStep(format, s, entries.entry);
        if entries.entry.kind == N_SLINE {
          queuedLines := queuedLines + [LineAt(entries.entry.value, currentSourceFile, LineNumber(entries.entry))];
          Advance(s);
        } else if entries.entry.kind == N_SOL {
          currentSourceFile := SymbolString();
          Advance(s);
        } else {
          Advance(s);
        }
      }
      ok := ProcessUnitEnd();
    }

    /** The end of a unit: an N_SO with no name says where it is, anything else leaves that open. */
    method ProcessUnitEnd() returns (ok: bool)
      requires At(InUnit) && (!entries.atEnd ==> entries.entry.kind == N_SO)
      modifies this, handler, entries, entries.cursor
      ensures ok ==> At(Outside) && |Left()| <= old(|Left()|)
      ensures !ok ==> Stop()
    {
      hide Complete, Agreed, Step, Format.NameAt, Format.TextAt;
      ghost var s := Now(InUnit);
      var endingAddress: Address := 0;
      if !entries.atEnd && format.TextAt(SymbolString()) == "" {
        UnitBodyStep(format, s, entries.entry);
        endingAddress := entries.entry.value;
        Advance(s);
      } else {
        EndEarly(format, s, Left());
      }
      Ahead(EndUnit(s, endingAddress));
      ok := Report(EndCompilationUnit(endingAddress));
      if ok {
        queuedLines := [];
      }
    }

    method ProcessFunction() returns (ok: bool)
      requires At(InUnit) && !entries.atEnd && entries.entry.kind == N_FUN
      modifies this, handler, entries, entries.cursor
      ensures ok ==> At(InUnit) && |Left()| < old(|Left()|)
      ensures !ok ==> Stop()
    {
      hide Complete, Agreed, Format.NameAt, Format.TextAt;
      ghost var s := Now(InUnit);
      var functionAddress := entries.entry.value;
      Coming(s);
      ok := Report(StartFunction(UpToColon(format.TextAt(SymbolString())), functionAddress));
      if !ok {
        return;
      }
      Advance(s);
      ok := ReportQueued();
      if !ok {
        return;
      }
      ok := ProcessFunctionBody(functionAddress);
    }

    /** Report the lines that came before the function. */
    method ReportQueued() returns (ok: bool)
      requires Agreed(handler.answer, handler.trace) && handler.trace + queuedLines <= expected.trace
      modifies this, handler
      ensures queuedLines == (if ok then [] else old(queuedLines)) && currentSourceFile == old(currentSourceFile)
      ensures stringOffset == old(stringOffset) && nextOffset == old(nextOffset)
      ensures ok ==> handler.trace == old(handler.trace) + old(queuedLines) && Agreed(handler.answer, handler.trace)
      ensures !ok ==> Stop()
    {
      hide Agreed;
      ghost var before := handler.trace;
      assert before + queuedLines[..0] == before;
      for i := 0 to |queuedLines|
        invariant unchanged(this) && handler.trace == before + queuedLines[..i] && Agreed(handler.answer, handler.trace)
      {
        assert before + queuedLines[..i + 1] == before + queuedLines[..i] + [queuedLines[i]];
        assert before + queuedLines == before + queuedLines[..i + 1] + queuedLines[i + 1..];
        ok := Report(queuedLines[i]);
        if !ok {
          return;
        }
      }
      assert queuedLines[..|queuedLines|] == queuedLines;
      queuedLines := [];
      ok := true;
    }

    /** The rest of ProcessFunction: the lines of the function, and its end. */
    method ProcessFunctionBody(functionAddress: Address) returns (ok: bool)
      requires At(InFunction(functionAddress))
      modifies this, handler, entries, entries.cursor
      ensures ok ==> At(InUnit) && |Left()| <= old(|Left()|)
      ensures !ok ==> Stop()
    {
      hide Complete, Agreed, Step, Format.NameAt, Format.TextAt;
      while !entries.atEnd && entries.entry.kind != N_SO && entries.entry.kind != N_FUN
        invariant At(InFunction(functionAddress)) && |Left()| <= old(|Left()|)
        decreases |Left()|
      {
        ghost var s := Now(InFunction(functionAddress));
        BodyStep(format, s, entries.entry);
        if entries.entry.kind == N_SLINE {
          var lineAddress := Plus(functionAddress, entries.entry.value);
          Coming(s);
          ok := Report(LineAt(lineAddress, currentSourceFile, LineNumber(entries.entry)));
          if !ok {
            return;
          }
          Advance(s);
        } else if entries.entry.kind == N_SOL {
          currentSourceFile := SymbolString();
          Advance(s);
        } else {
          Advance(s);
        }
      }
      ok := ProcessFunctionEnd(functionAddress);
    }

    /** The end of a function, as far as the entries tell where it is. */
    method ProcessFunctionEnd(functionAddress: Address) returns (ok: bool)
      requires At(InFunction(functionAddress))
      requires entries.atEnd || entries.entry.kind == N_SO || entries.entry.kind == N_FUN
      modifies this, handler, entries, entries.cursor
      ensures ok ==> At(InUnit) && |Left()| <= old(|Left()|)
      ensures !ok ==> Stop()
    {
      hide Complete, Agreed, Step, Format.NameAt, Format.TextAt;
      ghost var s := Now(InFunction(functionAddress));
      var endingAddress: Address := 0;
      if !entries.atEnd && entries.entry.kind == N_FUN && format.TextAt(SymbolString()) == "" {
        BodyStep(format, s, entries.entry);
        endingAddress := Plus(functionAddress, entries.entry.value);
        Advance(s);
      } else {
        LeaveEarly(format, s, Left());
        if !entries.atEnd {
          endingAddress := entries.entry.value;
        }
      }
      Ahead(LeaveFunction(s, endingAddress));
      ok := Report(EndFunction(endingAddress));
    }
  }
}
