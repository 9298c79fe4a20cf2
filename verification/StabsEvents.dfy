/** What each entry of a `.stab` section makes the reader report, entry by entry, and where the names it reports
    are looked up. */
module StabsEvents {
  import opened Addresses
  import opened CStrings
  import opened StabsEntries
  import opened StabsOffsets
  import opened StabsProtocol
  import opened SymbolModule

  /** The position a name is looked up at, on 64-bit offsets; a name outside the section is the first one. */
  lemma NamePosition(f: Format, s: State, e: Entry)
    requires f.Valid()
    ensures var p := (s.stringOffset + e.nameOffset) % TWO_64;
      f.NameOf(s, e) == (if p < |f.strings| then p else 0)
    ensures f.NameOf(s, e) < |f.strings| && f.TextOf(s, e) == Text(f.strings[f.NameOf(s, e)..])
  {
    WrapAround(s.stringOffset, e.nameOffset);
    hide Plus, Text;
  }

  function DirectoryOf(m: Mode): Option<nat> {
    if m.AfterDirectory? then Some(m.directory) else None
  }

  /** The entry starts a unit: it has a name, and it is not that of a directory, unless one was just given. */
  predicate StartsUnit(m: Mode, e: Entry, text: string) {
    e.kind == N_SO && text != "" && (m.AfterDirectory? || text[|text| - 1] != '/')
  }

  /** Outside units only the start of a unit is reported, with the name of the entry and the directory just given. */
  lemma OutsideReports(f: Format, s: State, e: Entry)
    requires f.Valid() && (s.mode.Outside? || s.mode.AfterDirectory?)
    ensures var p := (s.stringOffset + e.nameOffset) % TWO_64;
      var name := if p < |f.strings| then p else 0;
      var text := Text(f.strings[name..]);
      Step(f, s, e).trace ==
        if StartsUnit(s.mode, e, text) then s.trace + [StartCompilationUnit(name, e.value, DirectoryOf(s.mode))]
        else s.trace
  {
    NamePosition(f, s, e);
    hide Format.NameAt, Format.TextAt, Text, UpToColon;
  }

  /** In a unit, its end, which an entry without a name tells; the start of another; and the start of a function,
      with the lines that were waiting for it. */
  lemma UnitReports(f: Format, s: State, e: Entry)
    requires f.Valid() && s.mode.InUnit?
    ensures var p := (s.stringOffset + e.nameOffset) % TWO_64;
      var name := if p < |f.strings| then p else 0;
      var text := Text(f.strings[name..]);
      Step(f, s, e).trace ==
        if e.kind == N_SO && text == "" then s.trace + [EndCompilationUnit(e.value)]
        else if StartsUnit(s.mode, e, text) then
          s.trace + [EndCompilationUnit(0)] + [StartCompilationUnit(name, e.value, None)]
        else if e.kind == N_SO then s.trace + [EndCompilationUnit(0)]
        else if e.kind == N_FUN then s.trace + [StartFunction(UpToColon(text), e.value)] + s.queued
        else s.trace
  {
    NamePosition(f, s, e);
    hide Format.NameAt, Format.TextAt, Text, UpToColon;
  }

  /** In a function, its lines, at addresses relative to it, and its end: an entry without a name gives its size;
      otherwise it ends where the next function or unit begins. */
  lemma FunctionReports(f: Format, s: State, e: Entry)
    requires f.Valid() && s.mode.InFunction?
    ensures var p := (s.stringOffset + e.nameOffset) % TWO_64;
      var name := if p < |f.strings| then p else 0;
      var text := Text(f.strings[name..]);
      var ended := s.trace + [EndFunction(e.value)];
      Step(f, s, e).trace ==
        if e.kind == N_SLINE then
          s.trace + [LineAt((s.mode.address + e.value) % TWO_64, s.file, e.descriptor % 0x10000)]
        else if e.kind == N_FUN && text == "" then s.trace + [EndFunction((s.mode.address + e.value) % TWO_64)]
        else if e.kind == N_FUN then ended + [StartFunction(UpToColon(text), e.value)] + s.queued
        else if e.kind == N_SO && text == "" then ended + [EndCompilationUnit(e.value)]
        else if StartsUnit(s.mode, e, text) then
          ended + [EndCompilationUnit(0)] + [StartCompilationUnit(name, e.value, None)]
        else if e.kind == N_SO then ended + [EndCompilationUnit(0)]
        else s.trace
  {
    NamePosition(f, s, e);
    WrapAround(s.mode.address, e.value);
    hide Format.NameAt, Format.TextAt, Plus, Text, UpToColon;
  }

  predicate InAnyUnit(m: Mode) {
    m.InUnit? || m.InFunction?
  }

  /** Where an entry leaves the reader. */
  lemma EntryMoves(f: Format, s: State, e: Entry)
    requires f.Valid()
    ensures var m, p := s.mode, (s.stringOffset + e.nameOffset) % TWO_64;
      var name := if p < |f.strings| then p else 0;
      var text := Text(f.strings[name..]);
      Step(f, s, e).mode ==
        if StartsUnit(m, e, text) then InUnit
        else if e.kind == N_SO && text != "" then AfterDirectory(name)
        else if e.kind == N_SO then Outside
        else if !InAnyUnit(m) then Outside
        else if e.kind == N_FUN && (m.InUnit? || text != "") then InFunction(e.value)
        else if e.kind == N_FUN then InUnit
        else m
  {
    NamePosition(f, s, e);
    hide Format.NameAt, Format.TextAt, Text, UpToColon;
  }

  /** Which file it takes the lines to be in, and which lines wait for a function. */
  lemma EntryKeeps(f: Format, s: State, e: Entry)
    requires f.Valid()
    ensures var m, p := s.mode, (s.stringOffset + e.nameOffset) % TWO_64;
      var name := if p < |f.strings| then p else 0;
      var text := Text(f.strings[name..]);
      Step(f, s, e).file == if StartsUnit(m, e, text) || (InAnyUnit(m) && e.kind == N_SOL) then name else s.file
    ensures s.mode.InUnit? && e.kind == N_SLINE ==>
      Step(f, s, e).queued == s.queued + [LineAt(e.value, s.file, e.descriptor % 0x10000)]
    ensures InAnyUnit(s.mode) && e.kind == N_SO ==> Step(f, s, e).queued == []
    ensures s.mode.InUnit? && e.kind == N_FUN ==> Step(f, s, e).queued == []
    ensures e.kind != N_SO && e.kind != N_FUN && !(s.mode.InUnit? && e.kind == N_SLINE) ==>
      Step(f, s, e).queued == s.queued
  {
    NamePosition(f, s, e);
    hide Format.NameAt, Format.TextAt, Text, UpToColon;
  }

  /** What the end of the section adds. */
  lemma EndReports(f: Format, s: State)
    ensures Complete(f, s, []).trace ==
      if s.mode.InFunction? then s.trace + [EndFunction(0)] + [EndCompilationUnit(0)]
      else if s.mode.InUnit? then s.trace + [EndCompilationUnit(0)]
      else s.trace
  {
  }

  lemma {:induction false} TextInPart(before: string, part: string, behind: string, k: nat)
    requires k <= |part| && NUL in part[k..]
    ensures Text((before + part + behind)[|before| + k..]) == Text(part[k..])
  {
    var t := Text(part[k..]);
    EndsAtNul(part[k..]);
    var whole := (before + part + behind)[|before| + k..];
    assert whole == part[k..] + behind;
    TextUnique(whole, t);
  }

  lemma {:induction false} EndsAtNul(s: string)
    requires NUL in s
    ensures |Text(s)| < |s|
  {
    assert |Text(s)| == |s| ==> Text(s) == s;
  }

  /** Where the offset is right, a name is looked up in its own unit's part of the section: the part that lies
      behind as many characters as all headers before the unit's own one give. */
  lemma NameInOwnPart(f: Format, es: seq<Entry>, e: Entry, before: string, part: string, behind: string)
    requires f.Valid() && f.strings == before + part + behind && |before| == OffsetMeant(HeadersOf(f, es))
    requires var hs := HeadersOf(f, es); forall i :: 0 <= i < |hs| - 1 && i != PreviousMet(hs) ==> hs[i].size == 0
    requires e.nameOffset < |part| && NUL in part[e.nameOffset..]
    ensures f.NameOf(After(f, es), e) == |before| + e.nameOffset
    ensures f.TextOf(After(f, es), e) == Text(part[e.nameOffset..])
  {
    hide HeadersOf, After, OffsetMeant, PreviousMet, Format.NameAt, Format.TextAt, Text;
    SectionOffsetRight(f, es);
    NamePosition(f, After(f, es), e);
    TextInPart(before, part, behind, e.nameOffset);
    assert After(f, es).stringOffset == |before| && |before| + e.nameOffset < |f.strings| < TWO_64;
  }

  const TWO_PARTS: string := "\0a.c\0\0b.c\0"

  /** Two units, each with its header and its end. */
  const BOTH_ENDED: seq<Entry> :=
    [Entry(0, 0x00, 0, 0, 5), Entry(1, 0x64, 0, 0, 0x1000), Entry(0, 0x64, 0, 0, 0x1010),
     Entry(0, 0x00, 0, 0, 5), Entry(1, 0x64, 0, 0, 0x2000)]

  lemma PartsNamed(f: Format)
    requires f == Format(TWO_PARTS, true)
    ensures f.Valid() && Text(f.strings[0..]) == "" && Text(f.strings[1..]) == "a.c" && Text(f.strings[6..]) == "b.c"
    ensures Text(f.strings[5..]) == "" && |f.strings| == 10
  {
    PartText(1, "a.c");
    PartText(6, "b.c");
    PartText(0, "");
    PartText(5, "");
    hide Text;
  }

  lemma PartText(k: nat, text: string)
    requires (k == 1 && text == "a.c") || (k == 6 && text == "b.c") || (k in {0, 5} && text == "")
    ensures k < |TWO_PARTS| && Text(TWO_PARTS[k..]) == text
  {
    hide Text;
    assert TWO_PARTS[k..][|text|] == NUL && TWO_PARTS[k..][..|text|] == text;
    TextUnique(TWO_PARTS[k..], text);
  }

  lemma FiveSteps(f: Format)
    requires f.unitized && f.Valid() && |f.strings| == 10 && Text(f.strings[0..]) == "" == Text(f.strings[5..])
    requires Text(f.strings[1..]) == "a.c" && Text(f.strings[6..]) == "b.c"
    ensures var e, a, x := BOTH_ENDED, StartCompilationUnit(1, 0x1000, None), EndCompilationUnit(0x1010);
      var s1, s2 := State(Outside, [], 0, [], 0, 5), State(InUnit, [a], 1, [], 0, 5);
      var s3 := State(Outside, [a, x], 1, [], 0, 5);
      var s4 := State(Outside, [a, x], 1, [], 5, 5);
      && Step(f, START, e[0]) == s1 && Step(f, s1, e[1]) == s2 && Step(f, s2, e[2]) == s3
      && Step(f, s3, e[3]) == s4 && Step(f, s4, e[4]).trace == [a, x, StartCompilationUnit(6, 0x2000, None)]
  {
  }

  /** The second unit's name is looked up in the second part. */
  lemma TwoUnitsNamed()
    ensures var f := Format(TWO_PARTS, true);
      f.Valid() && After(f, BOTH_ENDED).trace
        == [StartCompilationUnit(1, 0x1000, None), EndCompilationUnit(0x1010), StartCompilationUnit(6, 0x2000, None)]
    ensures Text(TWO_PARTS[6..]) == "b.c"
  {
    var f, e := Format(TWO_PARTS, true), BOTH_ENDED;
    PartsNamed(f);
    FiveSteps(f);
    Nothing(f);
    hide After, HeadersOf, Step;
    FiveInTurn(e);
    OneMoreEntry(f, [], e[0]);
    OneMoreEntry(f, e[..1], e[1]);
    OneMoreEntry(f, e[..2], e[2]);
    OneMoreEntry(f, e[..3], e[3]);
    OneMoreEntry(f, e[..4], e[4]);
  }

  lemma FiveInTurn<T>(e: seq<T>)
    requires |e| == 5
    ensures e[..1] == [] + [e[0]] && e[..2] == e[..1] + [e[1]] && e[..3] == e[..2] + [e[2]]
    ensures e[..4] == e[..3] + [e[3]] && e == e[..4] + [e[4]]
  {
  }
}
