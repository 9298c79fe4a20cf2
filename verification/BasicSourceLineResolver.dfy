/** The STACK CFI part of a symbol file, read into a module and looked up. */
module BasicSourceLineResolver {
  import opened Addresses
  import opened CfiFrameInfo
  import opened RangeMap
  import opened StackCfi
  import opened Strtok
  import opened SymbolModule

  const MAX_ERRORS_BEFORE_BAILING := 100

  /** The rule sets of a module, as text. */
  datatype Table = Table(initial: map<Address, Stored<string>>, deltas: map<Address, string>)

  const NO_RULES := Table(map[], map[])

  ghost function Enter(t: Table, r: Record): Table {
    match r
    case Init(base, size, rules) =>
      if Fits(t.initial, base, size) then t.(initial := t.initial[base + size - 1 := Stored(base, 0, rules)]) else t
    case Delta(address, rules) => t.(deltas := t.deltas[address := rules])
    case _ => t
  }

  ghost function EnterAll(records: seq<Record>): Table {
    if records == [] then NO_RULES else Enter(EnterAll(records[..|records| - 1]), records[|records| - 1])
  }

  /** Lines of other kinds are passed over. */
  function ReadLine(line: string, rest: string): Record {
    if "STACK " <= line then ParseStack(line, rest) else Other
  }

  /** The records of a text, line by line. */
  function ReadAll(text: string): seq<Record>
    decreases |text|
  {
    var (line, rest) := Next(text, LINE_BREAKS);
    if line.None? then [] else [ReadLine(line.value, rest)] + ReadAll(RestAfter(line.value, rest))
  }

  ghost predicate NoneBare(lines: seq<string>) {
    forall line :: line in lines ==> !IsBare(line)
  }

  /** The records are those of the lines, each read by itself. */
  ghost predicate ReadInTurn(records: seq<Record>, lines: seq<string>) {
    |records| == |lines| && forall i :: 0 <= i < |lines| ==> records[i] == ReadLine(lines[i], "")
  }

  lemma NoneBareSplits(line: string, lines: seq<string>)
    requires NoneBare([line] + lines)
    ensures !IsBare(line) && NoneBare(lines)
  {
    hide IsBare;
    assert ([line] + lines)[0] == line;
    forall other | other in lines ensures !IsBare(other) {
      assert other in [line] + lines;
    }
  }

  lemma OneMoreInTurn(record: Record, records: seq<Record>, line: string, lines: seq<string>)
    requires record == ReadLine(line, "") && ReadInTurn(records, lines)
    ensures ReadInTurn([record] + records, [line] + lines)
  {
    hide ReadLine;
  }

  /** The line is read by itself: the text behind it has no part in its record, and none of that text is lost. */
  ghost predicate ByItself(line: string, rest: string) {
    ReadLine(line, rest) == ReadLine(line, "") && RestAfter(line, rest) == rest
  }

  ghost predicate EachByItself(text: string)
    decreases |text|
  {
    var (line, rest) := Next(text, LINE_BREAKS);
    line.None? || (ByItself(line.value, rest) && EachByItself(rest))
  }

  /** Behind a bare line there is at most a word, which ends the text. */
  ghost predicate OneWordAtMost(rest: string) {
    Solid(SkipBreaks(rest, FIELD_BREAKS), FIELD_BREAKS)
  }

  ghost predicate BareLinesLast(text: string)
    decreases |text|
  {
    var (line, rest) := Next(text, LINE_BREAKS);
    line.None? || ((IsBare(line.value) ==> OneWordAtMost(rest)) && BareLinesLast(rest))
  }

  /** Exactly a bare line that has more than a word behind it is not read by itself. */
  lemma ByItselfExactly(line: string, rest: string)
    ensures ByItself(line, rest) <==> (IsBare(line) ==> OneWordAtMost(rest))
  {
    hide ParseCfi, SkipSpaces;
    if IsBare(line) {
      BareIsCfi(line, rest);
      BareIsCfi(line, "");
      WordLeft(rest);
      if OneWordAtMost(rest) {
        NoFields(rest);
        NoFields("");
      }
    } else {
      ReadByItself(line, rest);
    }
  }

  lemma BareIsCfi(line: string, rest: string)
    requires IsBare(line)
    ensures ReadLine(line, rest) == ParseCfi(rest)
  {
    hide ParseCfi, SkipSpaces, UpToBreak;
  }

  /** All is left of a text that is cut behind its first word if and only if that word ends it. */
  lemma WordLeft(rest: string)
    ensures var first := SkipBreaks(rest, FIELD_BREAKS);
      && |UpToBreak(first, FIELD_BREAKS)| <= |first| <= |rest|
      && (rest[..|rest| - |first| + |UpToBreak(first, FIELD_BREAKS)|] == rest <==> OneWordAtMost(rest))
  {
    var first := SkipBreaks(rest, FIELD_BREAKS);
    if OneWordAtMost(rest) {
      WholeWord(first, FIELD_BREAKS);
    } else {
      assert |UpToBreak(first, FIELD_BREAKS)| == |first| ==> UpToBreak(first, FIELD_BREAKS) == first;
    }
  }

  lemma NoFields(rest: string)
    requires OneWordAtMost(rest)
    ensures ParseCfi(rest) == Bad
  {
    var first := SkipBreaks(rest, FIELD_BREAKS);
    WholeWord(first, FIELD_BREAKS);
    assert Next("", FIELD_BREAKS).0 == None && Next("", LINE_BREAKS).0 == None;
    hide SkipBreaks, UpToBreak, Strtoul16;
  }

  /** Each line is read by itself if and only if bare lines have at most a word behind them; and then the records
      are those of the lines. */
  lemma {:induction false} LineByLine(text: string)
    ensures EachByItself(text) <==> BareLinesLast(text)
    ensures BareLinesLast(text) ==> ReadInTurn(ReadAll(text), Tokens(text, LINE_BREAKS))
    ensures NoneBare(Tokens(text, LINE_BREAKS)) ==> BareLinesLast(text)
    decreases |text|
  {
    hide Tokens, NoneBare, ReadInTurn, IsBare, ReadLine, RestAfter, Next, ReadAll, OneWordAtMost;
    NextIsFirst(text, LINE_BREAKS);
    ReadIsNext(text);
    var next := Next(text, LINE_BREAKS);
    if next.0.None? {
      NoneInTurn();
    } else {
      var line, lines := next.0.value, Tokens(next.1, LINE_BREAKS);
      ByItselfExactly(line, next.1);
      LineByLine(next.1);
      if NoneBare(Tokens(text, LINE_BREAKS)) {
        NoneBareSplits(line, lines);
      }
      if BareLinesLast(text) {
        OneMoreInTurn(ReadLine(line, ""), ReadAll(next.1), line, lines);
      }
    }
  }

  lemma NoneInTurn()
    ensures ReadInTurn([], [])
  {
  }

  lemma ReadByItself(line: string, rest: string)
    requires !IsBare(line)
    ensures ReadLine(line, rest) == ReadLine(line, "") && RestAfter(line, rest) == rest
  {
    hide UpToBreak, SkipSpaces, ParseCfi;
  }

  /** A bare line takes its fields from the text behind it, of which all behind the first word is lost. */
  lemma BareLine(line: string, rest: string)
    requires IsBare(line) && Solid(line, LINE_BREAKS)
    ensures ReadAll(line + ['\n'] + rest) == [ParseCfi(rest)] + ReadAll(RestAfter(line, rest))
    ensures RestAfter(line, rest) == rest <==> OneWordAtMost(rest)
  {
    NextOf(line, '\n', rest, LINE_BREAKS);
    BareIsCfi(line, rest);
    WordLeft(rest);
    hide Next, ReadLine, ParseCfi, UpToBreak, OneWordAtMost;
    ReadIsNext(line + ['\n'] + rest);
    StillReading(line, rest);
  }

  /** Before a line of two words or more it is a change of rules, and nothing else is read. */
  lemma BareBeforeLine(line: string, word: string, fields: string, others: string)
    requires IsBare(line) && Solid(line, LINE_BREAKS) && fields != "" && Solid(fields, LINE_BREAKS)
    requires word != "" && Solid(word, FIELD_BREAKS) && word != "INIT"
    ensures ReadAll(line + ['\n'] + (word + [' '] + (fields + ['\n'] + others)))
      == [Delta(Strtoul16(word), fields), Other]
  {
    var more := fields + ['\n'] + others;
    var next := word + [' '] + more;
    BareLine(line, next);
    BareIsCfi(line, next);
    BareFields(line, word, fields, others);
    WordBehind(line, word, more);
    OneWord(word);
  }

  lemma StillReading(line: string, rest: string)
    ensures StillToRead(Some(line), rest) == [ReadLine(line, rest)] + ReadAll(RestAfter(line, rest))
  {
  }

  lemma BareFields(line: string, word: string, fields: string, others: string)
    requires IsBare(line) && word != "" && Solid(word, FIELD_BREAKS) && word != "INIT"
    requires fields != "" && Solid(fields, LINE_BREAKS)
    ensures ReadLine(line, word + [' '] + (fields + ['\n'] + others)) == Delta(Strtoul16(word), fields)
  {
    NextOf(word, ' ', fields + ['\n'] + others, FIELD_BREAKS);
    NextOf(fields, '\n', others, LINE_BREAKS);
    hide Next, Strtoul16;
  }

  lemma WordBehind(line: string, word: string, more: string)
    requires IsBare(line) && word != "" && Solid(word, FIELD_BREAKS)
    ensures RestAfter(line, word + [' '] + more) == word
  {
    assert word + [' '] + more == word + ([' '] + more);
    FirstWordLeft(line, word, [' '] + more);
  }

  lemma OneWord(word: string)
    requires word != "" && Solid(word, FIELD_BREAKS)
    ensures ReadAll(word) == [Other]
  {
    NextOfLast(word, LINE_BREAKS);
    assert "STACK "[5] == ' ' && (|word| > 5 ==> word[5] in word);
  }

  lemma BareExampleLine()
    ensures IsBare("STACK CFI")
  {
    assert "STACK CFI"[6..] == "CFI";
    WholeWord("CFI", FIELD_BREAKS);
  }

  lemma BareExampleSolid()
    ensures Solid("STACK CFI", LINE_BREAKS) && Solid("FUNC", FIELD_BREAKS) && Solid("1000 10 0 foo", LINE_BREAKS)
  {
  }

  lemma BareExampleNumber()
    ensures Strtoul16("FUNC") == 0xF
  {
    assert "FUNC"[1..][0] == 'U';
  }

  /** A function's line behind such a line is read as a change of rules at F, and the rest is not read. */
  lemma BareExample(others: string)
    ensures ReadAll("STACK CFI" + ['\n'] + ("FUNC" + [' '] + ("1000 10 0 foo" + ['\n'] + others)))
         == [Delta(0xF, "1000 10 0 foo"), Other]
  {
    BareExampleLine();
    BareExampleSolid();
    BareExampleNumber();
    hide *;
    assert "FUNC" != "" && "FUNC" != "INIT" && "1000 10 0 foo" != "";
    BareBeforeLine("STACK CFI", "FUNC", "1000 10 0 foo", others);
  }

  lemma FirstWordLeft(line: string, word: string, tail: string)
    requires IsBare(line) && word != "" && Solid(word, FIELD_BREAKS) && tail != "" && tail[0] in FIELD_BREAKS
    ensures RestAfter(line, word + tail) == word
  {
    UpToFirstBreak(word, tail, FIELD_BREAKS);
    WholeWord(word, FIELD_BREAKS);
    assert word[0] in word;
    assert SkipBreaks(word + tail, FIELD_BREAKS) == word + tail;
  }

  function CountBad(records: seq<Record>): nat {
    if records == [] then 0 else CountBad(records[..|records| - 1]) + if records[|records| - 1].Bad? then 1 else 0
  }

  ghost function BadPlaces(records: seq<Record>): set<nat> {
    set i: nat | i < |records| && records[i].Bad?
  }

  /** The number of places at which there is a bad record. */
  lemma {:induction false} CountsBad(records: seq<Record>)
    ensures CountBad(records) == |BadPlaces(records)|
  {
    if records == [] {
      assert BadPlaces(records) == {};
    } else {
      var n := |records| - 1;
      CountsBad(records[..n]);
      assert BadPlaces(records) == BadPlaces(records[..n]) + if records[n].Bad? then {n} else {};
    }
  }

  lemma {:induction false} CountGrows(records: seq<Record>, n: nat)
    requires n <= |records|
    ensures CountBad(records[..n]) <= CountBad(records)
    ensures (exists i :: 0 <= i < |records| && records[i].Bad?) <==> CountBad(records) > 0
  {
    if records == [] {
    } else {
      var m := |records| - 1;
      CountGrows(records[..m], if n <= m then n else m);
      if n <= m {
        assert records[..m][..n] == records[..n];
      } else {
        assert records[..n] == records;
      }
      if i :| 0 <= i < |records| && records[i].Bad? && i < m {
        assert records[..m][i].Bad?;
      }
      if i :| 0 <= i < m && records[..m][i].Bad? {
        assert records[i].Bad?;
      }
    }
  }

  /** What is loaded of any text: all its records if no more than a hundred are bad, and otherwise those up to the
      hundred and first bad one. It is corrupt if and only if one is bad. */
  lemma LoadStops(records: seq<Record>, t: Table, isCorrupt: bool)
    requires IsLoaded(records, t, isCorrupt)
    ensures isCorrupt <==> exists i :: 0 <= i < |records| && records[i].Bad?
    ensures |BadPlaces(records)| <= 100 ==> t == EnterAll(records)
    ensures |BadPlaces(records)| > 100 ==>
      exists n :: 0 < n <= |records| && StopsAtBad(records, n) && t == EnterAll(records[..n])
  {
    hide EnterAll, CountBad;
    var n: nat :| StopsAfter(records, n) && t == EnterAll(records[..n]) && (isCorrupt <==> CountBad(records[..n]) > 0);
    CountsBad(records);
    CountsBad(records[..n]);
    CountGrows(records, n);
    if n == |records| {
      assert records[..n] == records;
    }
    if |BadPlaces(records)| > 100 {
      NothingRead(records);
      OneMoreRead(records, n - 1);
      assert CountBad(records[..n - 1]) <= 100 && StopsAtBad(records, n);
    }
  }

  /** The hundred and first bad record is just before position `n`. */
  ghost predicate StopsAtBad(records: seq<Record>, n: nat) {
    0 < n <= |records| && records[n - 1].Bad? && |BadPlaces(records[..n])| == 101
  }

  lemma OneMoreDelta(t: Table, r: Record, a: Address)
    ensures a in Enter(t, r).deltas <==> a in t.deltas || IsDelta(r, a)
    ensures IsDelta(r, a) ==> Enter(t, r).deltas[a] == r.rules
    ensures !IsDelta(r, a) && a in t.deltas ==> Enter(t, r).deltas[a] == t.deltas[a]
  {
    hide Fits;
  }

  /** Of the changes given for an address, the last. */
  ghost predicate DeltasGiven(records: seq<Record>, deltas: map<Address, string>, a: Address) {
    && (a in deltas <==> exists i: nat :: IsLastDelta(records, i, a))
    && forall i: nat :: IsLastDelta(records, i, a) ==> a in deltas && deltas[a] == records[i].rules
  }

  lemma LastOfMore(records: seq<Record>, r: Record, i: nat, a: Address)
    ensures IsLastDelta(records + [r], i, a)
      <==> if IsDelta(r, a) then i == |records| else IsLastDelta(records, i, a)
  {
    hide IsDelta;
    var more := records + [r];
    assert more[|records|] == r;
    assert forall j :: 0 <= j < |records| ==> more[j] == records[j];
    if !IsDelta(r, a) && IsLastDelta(records, i, a) {
      forall j | i < j < |more| ensures !IsDelta(more[j], a) {
        assert j < |records| ==> more[j] == records[j];
      }
    }
    if i < |records| && IsLastDelta(more, i, a) {
      forall j | i < j < |records| ensures !IsDelta(records[j], a) {
        assert more[j] == records[j];
      }
      assert !IsDelta(more[|records|], a);
    }
  }

  lemma GivenMore(records: seq<Record>, t: Table, r: Record, a: Address)
    requires DeltasGiven(records, t.deltas, a)
    ensures DeltasGiven(records + [r], Enter(t, r).deltas, a)
  {
    OneMoreDelta(t, r, a);
    hide Enter, IsDelta, IsLastDelta;
    forall i: nat
      ensures IsLastDelta(records + [r], i, a)
        <==> if IsDelta(r, a) then i == |records| else IsLastDelta(records, i, a)
    {
      LastOfMore(records, r, i, a);
    }
    LastIsThere(records);
    if IsDelta(r, a) {
      assert IsLastDelta(records + [r], |records|, a) && (records + [r])[|records|] == r;
    }
    forall i: nat | IsLastDelta(records, i, a) ensures i < |records| && (records + [r])[i] == records[i] {
      LastIsThere(records);
    }
  }

  lemma LastIsThere(records: seq<Record>)
    ensures forall i: nat, a :: IsLastDelta(records, i, a) ==> i < |records| && records[i].Delta?
  {
  }

  /** The last change given for an address is the one entered. */
  lemma {:induction false} DeltasEntered(records: seq<Record>, a: Address)
    ensures DeltasGiven(records, EnterAll(records).deltas, a)
  {
    if records != [] {
      var n := |records| - 1;
      DeltasEntered(records[..n], a);
      GivenMore(records[..n], EnterAll(records[..n]), records[n], a);
      assert records == records[..n] + [records[n]];
      hide DeltasGiven, Enter;
    }
  }

  predicate IsDelta(r: Record, a: Address) {
    r.Delta? && r.address == a
  }

  ghost predicate IsLastDelta(records: seq<Record>, i: nat, a: Address) {
    i < |records| && IsDelta(records[i], a) && forall j :: i < j < |records| ==> !IsDelta(records[j], a)
  }

  /** Initial rules are entered, and stay, just if their range is proper and overlaps none entered before. */
  lemma {:induction false} InitialsEntered(records: seq<Record>, n: nat)
    requires n < |records| && records[n].Init?
    ensures var base, size, before := records[n].address, records[n].size, EnterAll(records[..n]).initial;
      Fits(before, base, size) ==>
        base + size - 1 in EnterAll(records).initial
        && EnterAll(records).initial[base + size - 1] == Stored(base, 0, records[n].rules)
  {
    var m := |records| - 1;
    if n < m {
      assert records[..m][..n] == records[..n];
      InitialsEntered(records[..m], n);
      var base, size := records[n].address, records[n].size;
      if Fits(EnterAll(records[..n]).initial, base, size) {
        var t := EnterAll(records[..m]);
        if records[m].Init? && Fits(t.initial, records[m].address, records[m].size) {
          var high: Address := base + (size - 1);
          assert !Overlaps(records[m].address, records[m].address + records[m].size - 1, t.initial[high].base, high);
        }
      }
    }
  }

  ghost predicate FewBad(records: seq<Record>, n: nat)
    requires n <= |records|
  {
    forall k :: 0 <= k < n ==> CountBad(records[..k]) <= MAX_ERRORS_BEFORE_BAILING
  }

  /** Reading stops at the end, or once there are too many errors. */
  ghost predicate StopsAfter(records: seq<Record>, n: nat) {
    && n <= |records| && FewBad(records, n)
    && (n < |records| ==> CountBad(records[..n]) > MAX_ERRORS_BEFORE_BAILING)
  }

  /** The table, and whether the file is corrupt, after reading these records. */
  ghost predicate IsLoaded(records: seq<Record>, t: Table, isCorrupt: bool) {
    exists n: nat :: StopsAfter(records, n) && t == EnterAll(records[..n])
      && (isCorrupt <==> CountBad(records[..n]) > 0)
  }

  /** The rules at `hi`, by those at `lo` and the changes on the way. */
  ghost function Changed(deltas: map<Address, string>, lo: int, hi: int, info: Info): Info
    decreases hi - lo + 1
  {
    if hi < lo then info
    else
      var before := Changed(deltas, lo, hi - 1, info);
      if hi in deltas then Outcome(before, Tokens(deltas[hi], BREAKS), "", "").1 else before
  }

  /** Where there are no deltas, nothing changes. */
  lemma {:induction false} NothingChanges(deltas: map<Address, string>, lo: int, mid: int, hi: int, info: Info)
    requires lo <= mid <= hi + 1 && forall k :: k in deltas ==> k < mid || hi < k
    ensures Changed(deltas, lo, hi, info) == Changed(deltas, lo, mid - 1, info)
    decreases hi - mid + 1
  {
    if mid <= hi {
      NothingChanges(deltas, lo, mid, hi - 1, info);
    }
  }

  /** As far as the first delta from `mid` on, nothing changes. */
  lemma NothingUpTo(deltas: map<Address, string>, lo: int, mid: int, next: Option<Address>, hi: int, info: Info)
    requires lo <= mid <= hi + 1 && IsLowerBound(deltas, mid, next) && (next.Some? ==> hi < next.value)
    ensures Changed(deltas, lo, hi, info) == Changed(deltas, lo, mid - 1, info)
  {
    NothingChanges(deltas, lo, mid, hi, info);
  }

  lemma NothingYet(deltas: map<Address, string>, lo: int, info: Info)
    ensures Changed(deltas, lo, lo - 1, info) == info
  {
  }

  lemma OneChange(deltas: map<Address, string>, lo: int, d: Address, info: Info)
    requires lo <= d && d in deltas
    ensures Changed(deltas, lo, d, info)
      == Outcome(Changed(deltas, lo, d - 1, info), Tokens(deltas[d], BREAKS), "", "").1
  {
  }

  /** The rules that looking up an address finds. */
  ghost predicate IsFound(t: Table, address: Address, r: Option<Info>) {
    && ((forall h :: !Covers(t.initial, h, address)) ==> r == None)
    && forall h :: Covers(t.initial, h, address) ==> r == FoundIn(t, t.initial[h], address)
  }

  ghost function FoundIn(t: Table, range: Stored<string>, address: Address): Option<Info> {
    var (ok, info) := Outcome(NOTHING, Tokens(range.entry, BREAKS), "", "");
    if ok then Some(Changed(t.deltas, range.base, address, info)) else None
  }

  /** The records still to come after one call of `strtok_r`. */
  function StillToRead(buffer: Option<string>, rest: string): seq<Record> {
    match buffer
    case None => []
    case Some(line) => [ReadLine(line, rest)] + ReadAll(RestAfter(line, rest))
  }

  lemma ReadIsNext(text: string)
    ensures ReadAll(text) == StillToRead(Next(text, LINE_BREAKS).0, Next(text, LINE_BREAKS).1)
  {
  }

  lemma OnToNext(records: seq<Record>, n: nat, line: string, rest: string)
    requires n <= |records| && records[n..] == StillToRead(Some(line), rest)
    ensures n < |records| && records[n] == ReadLine(line, rest) && records[n + 1..] == ReadAll(RestAfter(line, rest))
  {
    var left := records[n..];
    assert left[0] == records[n] && left[1..] == records[n + 1..];
  }

  lemma NotStack(line: string, rest: string)
    ensures !("STACK " <= line) ==> RestAfter(line, rest) == rest && ReadLine(line, rest) == Other
  {
  }

  lemma NothingRead(records: seq<Record>)
    ensures EnterAll(records[..0]) == NO_RULES && CountBad(records[..0]) == 0
  {
  }

  lemma OneMoreRead(records: seq<Record>, n: nat)
    requires n < |records|
    ensures EnterAll(records[..n + 1]) == Enter(EnterAll(records[..n]), records[n])
    ensures CountBad(records[..n + 1]) == CountBad(records[..n]) + if records[n].Bad? then 1 else 0
    ensures records[n] == Other ==> EnterAll(records[..n + 1]) == EnterAll(records[..n])
  {
    assert records[..n + 1][..n] == records[..n];
  }

  lemma OneFound(t: Table, high: Address, address: Address, r: Option<Info>)
    requires RangesOk(t.initial) && Covers(t.initial, high, address) && r == FoundIn(t, t.initial[high], address)
    ensures IsFound(t, address, r)
  {
    forall h | Covers(t.initial, h, address) ensures h == high {
      assert h != high ==> Overlaps(t.initial[h].base, h, t.initial[high].base, high);
    }
  }

  class Module {
    const cfiInitialRules: RangeMap<string>
    var cfiDeltaRules: map<Address, string>
    var isCorrupt: bool

    ghost predicate Valid()
      reads this, cfiInitialRules
    {
      cfiInitialRules.Valid() && !cfiInitialRules.enableShrinkDown
    }

    ghost function Value(): Table
      reads this, cfiInitialRules
    {
      Table(cfiInitialRules.map_, cfiDeltaRules)
    }

    constructor ()
      ensures Valid() && Value() == NO_RULES && fresh(cfiInitialRules)
    {
      cfiInitialRules := new RangeMap<string>();
      cfiDeltaRules, isCorrupt := map[], false;
    }

    method LoadMapFromMemory(memory: string)
      requires Valid() && Value() == NO_RULES
      modifies this, cfiInitialRules
      ensures Valid()
      ensures IsLoaded(ReadAll(memory), Value(), isCorrupt)
    {
      hide EnterAll, CountBad, ReadAll, ParseStack, Next, Enter, RestAfter;
      ghost var records := ReadAll(memory);
      var numErrors := 0;
      ReadIsNext(memory);
      NothingRead(records);
      var next := Next(memory, LINE_BREAKS);
      var buffer, rest := next.0, next.1;
      ghost var n: nat := 0;
      while buffer.Some?
        invariant Valid() && n <= |records| && Value() == EnterAll(records[..n]) && numErrors == CountBad(records[..n])
        invariant FewBad(records, n) && numErrors <= MAX_ERRORS_BEFORE_BAILING
        invariant records[n..] == StillToRead(buffer, rest)
        decreases buffer.Some?, |rest|
      {
        OnToNext(records, n, buffer.value, rest);
        OneMoreRead(records, n);
        NotStack(buffer.value, rest);
        if "STACK " <= buffer.value {
          var ok;
          ok, rest := ParseStackInfo(buffer.value, rest);
          if !ok {
            numErrors := numErrors + 1;
          }
        }
        n := n + 1;
        if numErrors > MAX_ERRORS_BEFORE_BAILING {
          break;
        }
        ReadIsNext(rest);
        next := Next(rest, LINE_BREAKS);
        buffer, rest := next.0, next.1;
      }
      isCorrupt := numErrors > 0;
      assert StopsAfter(records, n);
    }

    /** `rest` is the text behind the line, and `left` what is left of it. */
    method ParseStackInfo(line: string, rest: string) returns (ok: bool, left: string)
      requires Valid() && "STACK " <= line
      modifies `cfiDeltaRules, cfiInitialRules
      ensures Valid() && Value() == Enter(old(Value()), ParseStack(line, rest)) && ok == !ParseStack(line, rest).Bad?
      ensures left == RestAfter(line, rest)
    {
      left := rest;
      var s := SkipSpaces(line[6..]);
      var platform := UpToBreak(s, FIELD_BREAKS);
      if |platform| < |s| {
        s := s[|platform| + 1..];
      } else {
        s := rest;  // behind the NUL that ends the line
        if platform == "CFI" {
          left := RestAfter(line, rest);
        }
      }
      if platform == "WIN" {
        return true, left;
      } else if platform == "CFI" {
        ok := ParseCFIFrameInfo(s);
      } else {
        return false, left;
      }
    }

    method ParseCFIFrameInfo(s: string) returns (ok: bool)
      requires Valid()
      modifies `cfiDeltaRules, cfiInitialRules
      ensures Valid() && Value() == Enter(old(Value()), ParseCfi(s)) && ok == !ParseCfi(s).Bad?
    {
      hide Next;
      var first := Next(s, FIELD_BREAKS);
      if first.0.None? {
        return false;
      }
      if first.0.value == "INIT" {
        var address := Next(first.1, FIELD_BREAKS);
        if address.0.None? {
          return false;
        }
        var size := Next(address.1, FIELD_BREAKS);
        if size.0.None? {
          return false;
        }
        var initialRules := Next(size.1, LINE_BREAKS);
        if initialRules.0.None? {
          return false;
        }
        var stored := cfiInitialRules.StoreRange(Strtoul16(address.0.value), Strtoul16(size.0.value),
          initialRules.0.value);
        return true;
      }
      var deltaRules := Next(first.1, LINE_BREAKS);
      if deltaRules.0.None? {
        return false;
      }
      cfiDeltaRules := cfiDeltaRules[Strtoul16(first.0.value) := deltaRules.0.value];
      ok := true;
    }

    method ParseCFIRuleSet(ruleSet: string, frameInfo: CFIFrameInfo) returns (ok: bool)
      modifies frameInfo
      ensures (ok, frameInfo.Value()) == Outcome(old(frameInfo.Value()), Tokens(ruleSet, BREAKS), "", "")
    {
      var parser := new CFIRuleParser(frameInfo);
      ok := parser.Parse(ruleSet);
    }

    /** The loop of FindCFIFrameInfo: the changes of rules from `base` to `address`, in order. */
    method ApplyDeltas(base: Address, address: Address, found: CFIFrameInfo)
      requires base <= address
      modifies found
      ensures found.Value() == Changed(cfiDeltaRules, base, address, old(found.Value()))
    {
      hide Outcome, Tokens, Changed, IsLowerBound;
      NothingYet(cfiDeltaRules, base, found.Value());
      ghost var info, from := found.Value(), base as int;
      var delta: Option<Address> := LowerBound(cfiDeltaRules, base);
      while delta.Some? && delta.value <= address
        invariant base <= from <= address + 1 && IsLowerBound(cfiDeltaRules, from, delta)
        invariant delta.Some? ==> from <= delta.value && delta.value in cfiDeltaRules
        invariant found.Value() == Changed(cfiDeltaRules, base, from - 1, info)
        decreases address + 1 - from
      {
        NothingUpTo(cfiDeltaRules, base, from, delta, delta.value - 1, info);
        OneChange(cfiDeltaRules, base, delta.value, info);
        var _ := ParseCFIRuleSet(cfiDeltaRules[delta.value], found);
        from := delta.value + 1;
        delta := LowerBound(cfiDeltaRules, delta.value + 1);
      }
      NothingUpTo(cfiDeltaRules, base, from, delta, address, info);
    }

    method FindCFIFrameInfo(instruction: Address, moduleBase: Address) returns (rules: CFIFrameInfo?)
      requires Valid()
      ensures rules != null ==> fresh(rules)
      ensures IsFound(Value(), Minus(instruction, moduleBase), if rules == null then None else Some(rules.Value()))
    {
      var address := Minus(instruction, moduleBase);
      var high := cfiInitialRules.RetrieveRange(address);
      if high.None? {
        return null;
      }
      var initial := cfiInitialRules.map_[high.value];
      var found := new CFIFrameInfo();
      var ok := ParseCFIRuleSet(initial.entry, found);
      if !ok {
        OneFound(Value(), high.value, address, None);
        return null;
      }
      ApplyDeltas(initial.base, address, found);
      rules := found;
      OneFound(Value(), high.value, address, Some(rules.Value()));
    }
  }
}
