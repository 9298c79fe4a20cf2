/** Where the strings of a unit are looked up, and where they are, when each unit has its own part of the
    string section. */
module StabsOffsets {
  import opened Addresses
  import opened CStrings
  import opened StabsEntries
  import opened StabsProtocol
  import opened SymbolModule

  /** The state after reading these entries. */
  function After(f: Format, es: seq<Entry>): State {
    if es == [] then START else Step(f, After(f, es[..|es| - 1]), es[|es| - 1])
  }

  /** Reading on from there is reading the whole section. */
  lemma {:induction false} AfterThenComplete(f: Format, es: seq<Entry>, k: nat)
    requires k <= |es|
    ensures Complete(f, After(f, es[..k]), es[k..]) == Complete(f, START, es)
  {
    if k == 0 {
      assert es[0..] == es;
    } else {
      AfterThenComplete(f, es, k - 1);
      assert es[k - 1..][0] == es[k - 1] && es[k - 1..][1..] == es[k..] && es[..k][..k - 1] == es[..k - 1];
    }
  }

  /** A unit header: the size it gives for its unit's strings, and whether the reader meets it outside units;
      inside a unit it is passed over like any other entry. */
  datatype Header = Header(size: Address, met: bool)

  function HeaderAt(mode: Mode, e: Entry): Header {
    Header(e.value, mode.Outside? || mode.AfterDirectory?)
  }

  function HeadersOf(f: Format, es: seq<Entry>): seq<Header> {
    if es == [] then []
    else
      var e, before := es[|es| - 1], HeadersOf(f, es[..|es| - 1]);
      if e.kind == N_UNDF && f.unitized then before + [HeaderAt(After(f, es[..|es| - 1]).mode, e)] else before
  }

  /** The last header met, or -1. */
  function LastMet(hs: seq<Header>): (k: int)
    ensures -1 <= k < |hs| && (k >= 0 ==> hs[k].met)
    ensures forall i :: k < i < |hs| ==> !hs[i].met
  {
    if hs == [] then -1 else if hs[|hs| - 1].met then |hs| - 1 else LastMet(hs[..|hs| - 1])
  }

  /** The last but one header met, or -1. */
  function PreviousMet(hs: seq<Header>): (k: int)
    ensures -1 <= k && (k >= 0 ==> k < LastMet(hs) && hs[k].met)
  {
    if LastMet(hs) < 0 then -1 else LastMet(hs[..LastMet(hs)])
  }

  function SizeAt(hs: seq<Header>, k: int): Address
    requires k < |hs|
  {
    if k < 0 then 0 else hs[k].size
  }

  /** Where the reader looks for strings, after these headers. */
  function OffsetUsed(hs: seq<Header>): Address {
    SizeAt(hs, PreviousMet(hs))
  }

  /** After any entries, the reader's offset is the size given by the last but one of the headers it met. */
  lemma {:induction false} HeadersSetOffset(f: Format, es: seq<Entry>)
    ensures var s, hs := After(f, es), HeadersOf(f, es);
      s.stringOffset == OffsetUsed(hs) && s.nextOffset == SizeAt(hs, LastMet(hs))
  {
    if es != [] {
      var init, e := es[..|es| - 1], es[|es| - 1];
      HeadersSetOffset(f, init);
      OtherStepsKeepOffsets(f, After(f, init), e);
      if e.kind == N_UNDF && f.unitized {
        OneMoreHeader(HeadersOf(f, init), HeaderAt(After(f, init).mode, e));
      }
    }
  }

  predicate SameOffsets(s: State, s': State) {
    s'.stringOffset == s.stringOffset && s'.nextOffset == s.nextOffset
  }

  lemma OutsideOffsets(f: Format, s: State, e: Entry)
    ensures var s' := OutsideStep(f, s, e);
      if e.kind == N_UNDF && f.unitized then s'.stringOffset == s.nextOffset && s'.nextOffset == e.value
      else SameOffsets(s, s')
  {
  }

  lemma UnitOffsets(f: Format, s: State, e: Entry)
    ensures SameOffsets(s, UnitStep(f, s, e))
  {
    OutsideOffsets(f, EndUnit(s, 0), e);
    hide OutsideStep;
  }

  lemma OtherStepsKeepOffsets(f: Format, s: State, e: Entry)
    ensures var s' := Step(f, s, e);
      if e.kind == N_UNDF && f.unitized && (s.mode.Outside? || s.mode.AfterDirectory?)
      then s'.stringOffset == s.nextOffset && s'.nextOffset == e.value
      else SameOffsets(s, s')
  {
    hide OutsideStep, UnitStep, Format.TextOf, Format.NameOf;
    OutsideOffsets(f, s, e);
    OutsideOffsets(f, s.(mode := Outside), e);
    UnitOffsets(f, s, e);
    UnitOffsets(f, LeaveFunction(s, e.value), e);
  }

  lemma OneMoreHeader(hs: seq<Header>, h: Header)
    ensures var more := hs + [h];
      && LastMet(more) == (if h.met then |hs| else LastMet(hs))
      && PreviousMet(more) == (if h.met then LastMet(hs) else PreviousMet(hs))
  {
    var more := hs + [h];
    assert more[..|hs|] == hs;
    if !h.met && LastMet(hs) >= 0 {
      assert more[..LastMet(hs)] == hs[..LastMet(hs)];
    }
  }

  function Sum(hs: seq<Header>): nat {
    if hs == [] then 0 else Sum(hs[..|hs| - 1]) + hs[|hs| - 1].size
  }

  /** Where the strings of the last header's unit are: behind those of all units before it. */
  function OffsetMeant(hs: seq<Header>): nat {
    if hs == [] then 0 else Sum(hs[..|hs| - 1])
  }

  lemma {:induction false} SumOfOthers(hs: seq<Header>, k: int)
    requires k < |hs|
    ensures SizeAt(hs, k) <= Sum(hs)
    ensures Sum(hs) == SizeAt(hs, k) <==> forall i :: 0 <= i < |hs| && i != k ==> hs[i].size == 0
  {
    if hs != [] {
      var n := |hs| - 1;
      SumOfOthers(hs[..n], if k == n then -1 else k);
      assert forall i :: 0 <= i < n ==> hs[..n][i] == hs[i];
    }
  }

  /** The offset is right if and only if, of all headers before the last, only the last but one that was met
      gives a size other than zero. */
  lemma OffsetRight(hs: seq<Header>)
    ensures OffsetUsed(hs) == OffsetMeant(hs)
      <==> forall i :: 0 <= i < |hs| - 1 && i != PreviousMet(hs) ==> hs[i].size == 0
  {
    if hs != [] {
      var before, k := hs[..|hs| - 1], PreviousMet(hs);
      SumOfOthers(before, k);
      assert forall i :: 0 <= i < |before| ==> before[i] == hs[i];
      assert SizeAt(before, k) == SizeAt(hs, k);
    }
  }

  /** So it is for every section, and after any part of it. */
  lemma SectionOffsetRight(f: Format, es: seq<Entry>)
    ensures var hs := HeadersOf(f, es);
      After(f, es).stringOffset == OffsetMeant(hs)
      <==> forall i :: 0 <= i < |hs| - 1 && i != PreviousMet(hs) ==> hs[i].size == 0
  {
    HeadersSetOffset(f, es);
    hide After, HeadersOf, PreviousMet;
    OffsetRight(HeadersOf(f, es));
  }

  ghost predicate AllMet(hs: seq<Header>) {
    forall i :: 0 <= i < |hs| ==> hs[i].met
  }

  /** If all headers are met, those before the last two must be zero. */
  lemma OffsetRightIfMet(hs: seq<Header>)
    requires AllMet(hs)
    ensures OffsetUsed(hs) == OffsetMeant(hs) <==> forall i :: 0 <= i < |hs| - 2 ==> hs[i].size == 0
  {
    OffsetRight(hs);
    assert PreviousMet(hs) == if |hs| < 2 then -1 else |hs| - 2;
  }

  lemma OneMore(hs: seq<Header>, h: Header)
    ensures OffsetMeant(hs + [h]) == Sum(hs) && Sum(hs + [h]) == Sum(hs) + h.size
  {
    assert (hs + [h])[..|hs|] == hs;
  }

  /** A header passed over need not do harm: the strings of this unit are where they are looked up. */
  lemma PassedOverButRight()
    ensures var hs := [Header(0, true), Header(7, false)];
      !AllMet(hs) && OffsetUsed(hs) == OffsetMeant(hs) == 0
  {
    var hs := [Header(0, true), Header(7, false)];
    assert !hs[1].met;
    assert [Header(0, true)] + [Header(7, false)] == hs && [] + [Header(0, true)] == [Header(0, true)];
    OneMore([], Header(0, true));
    OneMore([Header(0, true)], Header(7, false));
    OneMoreHeader([], Header(0, true));
    OneMoreHeader([Header(0, true)], Header(7, false));
  }

  const TWO_UNITS: string := "\0a.c\0b.c\0"

  /** Two units, the first without the N_SO that ends it. */
  const NOT_ENDED: seq<Entry> :=
    [Entry(0, N_UNDF, 0, 0, 5), Entry(1, N_SO, 0, 0, 0), Entry(0, N_UNDF, 0, 0, 4), Entry(1, N_SO, 0, 0, 0)]

  lemma OneMoreEntry(f: Format, es: seq<Entry>, e: Entry)
    ensures After(f, es + [e]) == Step(f, After(f, es), e)
    ensures var mode := After(f, es).mode;
      HeadersOf(f, es + [e])
      == HeadersOf(f, es) + if e.kind == N_UNDF && f.unitized then [HeaderAt(mode, e)] else []
  {
    assert (es + [e])[..|es|] == es;
  }

  function HeaderEntry(size: Address): Entry {
    Entry(0, N_UNDF, 0, 0, size)
  }

  lemma HeaderOutside(f: Format, s: State, size: Address)
    requires f.unitized && s.mode.Outside?
    ensures Step(f, s, HeaderEntry(size)) == s.(stringOffset := s.nextOffset, nextOffset := size)
  {
  }

  lemma OutsideHeader(f: Format, es: seq<Entry>, size: Address)
    requires f.unitized && After(f, es).mode.Outside?
    ensures HeadersOf(f, es + [HeaderEntry(size)]) == HeadersOf(f, es) + [Header(size, true)]
    ensures var s, s' := After(f, es), After(f, es + [HeaderEntry(size)]);
      s'.mode.Outside? && s'.stringOffset == s.nextOffset && s'.nextOffset == size
  {
    OneMoreEntry(f, es, HeaderEntry(size));
    HeaderOutside(f, After(f, es), size);
    hide After, HeadersOf, Step;
  }

  lemma ThreeInTurn(f: Format, a: Address, b: Address, c: Address)
    requires f.unitized
    ensures var es := [] + [HeaderEntry(a)] + [HeaderEntry(b)] + [HeaderEntry(c)];
      && HeadersOf(f, es) == [] + [Header(a, true)] + [Header(b, true)] + [Header(c, true)]
      && After(f, es).stringOffset == b && OffsetMeant(HeadersOf(f, es)) == a + b
  {
    Nothing(f);
    hide *;
    var one := [] + [HeaderEntry(a)];
    OutsideHeader(f, [], a);
    OutsideHeader(f, one, b);
    OutsideHeader(f, one + [HeaderEntry(b)], c);
    OneMore([], Header(a, true));
    OneMore([] + [Header(a, true)], Header(b, true));
    OneMore([] + [Header(a, true)] + [Header(b, true)], Header(c, true));
  }

  /** Three units with strings, but nothing else: those of the third are looked up too early. */
  lemma ThreeUnits(f: Format)
    requires f.unitized
    ensures var es := [HeaderEntry(5), HeaderEntry(4), HeaderEntry(3)];
      && HeadersOf(f, es) == [Header(5, true), Header(4, true), Header(3, true)]
      && After(f, es).stringOffset == 4 && OffsetMeant(HeadersOf(f, es)) == 9
  {
    ThreeInTurn(f, 5, 4, 3);
    hide *;
    assert [] + [HeaderEntry(5)] + [HeaderEntry(4)] + [HeaderEntry(3)]
      == [HeaderEntry(5), HeaderEntry(4), HeaderEntry(3)];
  }

  lemma FirstName(f: Format)
    requires f == Format(TWO_UNITS, true)
    ensures f.Valid() && f.NameAt(0, NOT_ENDED[1]) == f.NameAt(0, NOT_ENDED[3]) == 1 && f.TextAt(1) == "a.c"
  {
    assert TWO_UNITS[1..][3] == NUL && TWO_UNITS[1..][..3] == "a.c";
    TextUnique(TWO_UNITS[1..], "a.c");
  }

  /** The states that the reader goes through. */
  lemma FourSteps(f: Format)
    requires f.unitized && f.NameAt(0, NOT_ENDED[1]) == f.NameAt(0, NOT_ENDED[3]) == 1 && f.TextAt(1) == "a.c"
    ensures var s1, start := State(Outside, [], 0, [], 0, 5), StartCompilationUnit(1, 0, None);
      var s2 := State(InUnit, [start], 1, [], 0, 5);
      && Step(f, START, NOT_ENDED[0]) == s1 && Step(f, s1, NOT_ENDED[1]) == s2 == Step(f, s2, NOT_ENDED[2])
      && Step(f, s2, NOT_ENDED[3]).trace == [start, EndCompilationUnit(0), start]
  {
    hide Format.TextAt, Format.NameAt;
  }

  lemma FourInTurn<T>(e: seq<T>)
    requires |e| == 4
    ensures e[..1] == [] + [e[0]] && e[..2] == e[..1] + [e[1]] && e[..3] == e[..2] + [e[2]] && e == e[..3] + [e[3]]
  {
  }

  /** What four entries do, one by one. */
  lemma FourEntries(f: Format, e: seq<Entry>, s1: State, s2: State)
    requires |e| == 4 && f.unitized && e[0].kind == N_UNDF == e[2].kind && e[1].kind != N_UNDF
    requires START.mode.Outside? && s2.mode.InUnit?
    requires Step(f, START, e[0]) == s1 && Step(f, s1, e[1]) == s2 == Step(f, s2, e[2])
    ensures HeadersOf(f, e[..3]) == [Header(e[0].value, true), Header(e[2].value, false)]
    ensures After(f, e[..3]) == s2 && After(f, e) == Step(f, s2, e[3])
  {
    Nothing(f);
    FourInTurn(e);
    OneMoreEntry(f, [], e[0]);
    OneMoreEntry(f, e[..1], e[1]);
    OneMoreEntry(f, e[..2], e[2]);
    OneMoreEntry(f, e[..3], e[3]);
    hide HeadersOf, After, Step;
  }

  lemma MeantBehindFirst(a: Header, b: Header)
    ensures OffsetMeant([a, b]) == a.size
  {
    OneMore([], a);
    OneMore([a], b);
    assert [] + [a] == [a] && [a] + [b] == [a, b] && Sum([]) == 0;
  }

  /** Its second header is passed over, so the second unit is reported under the first one's name. */
  lemma SecondUnitNotEnded()
    ensures var f := Format(TWO_UNITS, true);
      && f.Valid() && HeadersOf(f, NOT_ENDED[..3]) == [Header(5, true), Header(4, false)]
      && OffsetMeant(HeadersOf(f, NOT_ENDED[..3])) == 5 && After(f, NOT_ENDED[..3]).stringOffset == 0
      && After(f, NOT_ENDED).trace
         == [StartCompilationUnit(1, 0, None), EndCompilationUnit(0), StartCompilationUnit(1, 0, None)]
  {
    var f, start := Format(TWO_UNITS, true), StartCompilationUnit(1, 0, None);
    FirstName(f);
    FourSteps(f);
    Nothing(f);
    hide HeadersOf, After, Step, Format.Valid, OffsetMeant, Sum;
    FourEntries(f, NOT_ENDED, State(Outside, [], 0, [], 0, 5), State(InUnit, [start], 1, [], 0, 5));
    MeantBehindFirst(Header(5, true), Header(4, false));
  }

  lemma Nothing(f: Format)
    ensures After(f, []) == START && START.mode.Outside? && HeadersOf(f, []) == [] && Sum([]) == 0
  {
  }
}
