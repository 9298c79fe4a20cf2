/** What stack frame entries mean, and that the trip through a symbol file keeps the meaning. */
module StackCfiMeaning {
  import opened Addresses
  import opened BasicSourceLineResolver
  import opened CfiFrameInfo
  import opened RangeMap
  import opened StackCfi
  import opened Strtok
  import opened SymbolModule

  /** The last change of a register's rule at or before `hi`. */
  ghost function LastChange(changes: map<Address, map<string, string>>, lo: int, hi: int, name: string): Option<string>
    decreases hi - lo + 1
  {
    if hi < lo then None
    else if hi in changes && name in changes[hi] then Some(changes[hi][name])
    else LastChange(changes, lo, hi - 1, name)
  }

  /** The rule an entry puts in force for a register at an address. */
  ghost function RuleInForce(e: StackFrameEntry, address: Address, name: string): Option<string> {
    var last := LastChange(e.ruleChanges, e.address, address, name);
    if last.Some? then last
    else if name in e.initialRules then Some(e.initialRules[name])
    else None
  }

  predicate Names(changes: map<Address, map<string, string>>, d: int, name: string) {
    0 <= d < TWO_64 && d in changes && name in changes[d]
  }

  lemma {:induction false} LastChangeIs(changes: map<Address, map<string, string>>, lo: int, hi: int, name: string,
                                        d: int)
    requires 0 <= lo && hi < TWO_64
    ensures (forall x :: lo <= x <= hi ==> !Names(changes, x, name)) ==> LastChange(changes, lo, hi, name) == None
    ensures lo <= d <= hi && Names(changes, d, name) && (forall x :: d < x <= hi ==> !Names(changes, x, name)) ==>
      LastChange(changes, lo, hi, name) == Some(changes[d][name])
    decreases hi - lo + 1
  {
    if lo <= hi {
      assert Names(changes, hi, name) <==> hi in changes && name in changes[hi];
      hide Names;
      LastChangeIs(changes, lo, hi - 1, name, d);
    }
  }

  /** In force is the change nearest before or at the address that names the register, from the entry's address
      on, and otherwise the initial rule. */
  lemma InForceIs(e: StackFrameEntry, address: Address, name: string, d: int)
    ensures (forall x :: e.address <= x <= address ==> !Names(e.ruleChanges, x, name)) ==>
      RuleInForce(e, address, name) == if name in e.initialRules then Some(e.initialRules[name]) else None
    ensures (e.address <= d <= address && Names(e.ruleChanges, d, name)
             && forall x :: d < x <= address ==> !Names(e.ruleChanges, x, name)) ==>
      RuleInForce(e, address, name) == Some(e.ruleChanges[d][name])
  {
    LastChangeIs(e.ruleChanges, e.address, address, name, d);
  }

  function High(e: StackFrameEntry): int {
    e.address + e.size - 1
  }

  predicate InEntry(address: int, e: StackFrameEntry) {
    e.address <= address <= High(e)
  }

  /** A range of addresses, changes inside it, and proper rules everywhere. */
  ghost predicate Good(e: StackFrameEntry) {
    && 0 < e.size && e.address + e.size <= TWO_64 && ProperMap(e.initialRules)
    && forall d :: d in e.ruleChanges ==> InEntry(d, e) && ProperMap(e.ruleChanges[d])
  }

  /** No address is in two entries. */
  ghost predicate Apart(entries: seq<StackFrameEntry>) {
    forall i, j, a :: (
      && 0 <= i < |entries| && 0 <= j < |entries|
      && InEntry(a, entries[i]) && InEntry(a, entries[j])) ==> i == j
  }

  ghost predicate GoodEntries(entries: seq<StackFrameEntry>) {
    Apart(entries) && forall i :: 0 <= i < |entries| ==> Good(entries[i])
  }

  lemma SameEntry(entries: seq<StackFrameEntry>, i: nat, j: nat, a: int)
    requires GoodEntries(entries) && i < |entries| && j < |entries| && InEntry(a, entries[i]) && InEntry(a, entries[j])
    ensures i == j
  {
  }

  lemma GoodAt(entries: seq<StackFrameEntry>, i: nat)
    requires GoodEntries(entries) && i < |entries|
    ensures Good(entries[i])
  {
  }

  /** All that a table holds is of the entries. */
  ghost predicate Sound(t: Table, entries: seq<StackFrameEntry>) {
    && (forall h :: h in t.initial ==> InitialOfSome(h, t.initial[h], entries))
    && forall d :: d in t.deltas ==> DeltaOfSome(d, t.deltas[d], entries)
  }

  ghost predicate InitialOf(h: Address, s: Stored<string>, e: StackFrameEntry) {
    h == High(e) && s.base == e.address && IsText(s.entry, e.initialRules)
  }

  ghost predicate InitialOfSome(h: Address, s: Stored<string>, entries: seq<StackFrameEntry>) {
    exists i :: 0 <= i < |entries| && InitialOf(h, s, entries[i])
  }

  ghost predicate DeltaOf(d: Address, text: string, e: StackFrameEntry) {
    d in e.ruleChanges && IsText(text, e.ruleChanges[d])
  }

  ghost predicate DeltaOfSome(d: Address, text: string, entries: seq<StackFrameEntry>) {
    exists i :: 0 <= i < |entries| && DeltaOf(d, text, entries[i])
  }

  lemma EnterSound(t: Table, entries: seq<StackFrameEntry>, r: Record)
    requires Sound(t, entries) && OfSome(r, entries)
    ensures Sound(Enter(t, r), entries)
  {
    hide IsText, ProperMap;
    var i :| 0 <= i < |entries| && RecordOf(r, entries[i]);
    match r
    case Init(base, size, rules) =>
      if Fits(t.initial, base, size) {
        assert InitialOf(base + size - 1, Stored(base, 0, rules), entries[i]);
      }
    case Delta(address, rules) => assert DeltaOf(address, rules, entries[i]);
    case _ =>
  }

  lemma WhichRecord(r: Record, entries: seq<StackFrameEntry>) returns (i: nat)
    requires OfSome(r, entries)
    ensures i < |entries| && RecordOf(r, entries[i])
  {
    i :| 0 <= i < |entries| && RecordOf(r, entries[i]);
  }

  lemma WhichInitial(t: Table, entries: seq<StackFrameEntry>, h: Address) returns (i: nat)
    requires Sound(t, entries) && h in t.initial
    ensures i < |entries| && InitialOf(h, t.initial[h], entries[i])
  {
    assert InitialOfSome(h, t.initial[h], entries);
    i :| 0 <= i < |entries| && InitialOf(h, t.initial[h], entries[i]);
  }

  lemma WhichDelta(t: Table, entries: seq<StackFrameEntry>, d: Address) returns (i: nat)
    requires Sound(t, entries) && d in t.deltas
    ensures i < |entries| && DeltaOf(d, t.deltas[d], entries[i])
  {
    assert DeltaOfSome(d, t.deltas[d], entries);
    i :| 0 <= i < |entries| && DeltaOf(d, t.deltas[d], entries[i]);
  }

  /** A range that does not fit is there already. */
  lemma InitialIsThere(t: Table, entries: seq<StackFrameEntry>, base: Address, size: Address, rules: string)
    requires GoodEntries(entries) && Sound(t, entries) && OfSome(Init(base, size, rules), entries)
    ensures base + size - 1 < TWO_64 && base + size - 1 in Enter(t, Init(base, size, rules)).initial
  {
    hide IsText, ProperMap, GoodEntries, OfSome, Sound;
    var i := WhichRecord(Init(base, size, rules), entries);
    GoodAt(entries, i);
    if !Fits(t.initial, base, size) {
      var h :| h in t.initial && Overlaps(base, base + size - 1, t.initial[h].base, h);
      var j := WhichInitial(t, entries, h);
      GoodAt(entries, j);
      SameEntry(entries, i, j, Max(base, t.initial[h].base));
    }
  }

  ghost predicate Has(t: Table, r: Record) {
    match r
    case Init(base, size, _) => 0 <= base + size - 1 < TWO_64 && base + size - 1 in t.initial
    case Delta(address, _) => address in t.deltas
    case _ => true
  }

  ghost predicate HasAll(t: Table, records: seq<Record>) {
    forall r :: r in records ==> Has(t, r)
  }

  lemma KeepsAll(t: Table, records: seq<Record>, r: Record)
    requires HasAll(t, records) && Has(Enter(t, r), r)
    ensures HasAll(Enter(t, r), records + [r])
  {
  }

  lemma NothingEntered(entries: seq<StackFrameEntry>)
    ensures Sound(EnterAll([]), entries) && HasAll(EnterAll([]), [])
  {
  }

  /** Reading the records of entries gives a table of them that lacks nothing. */
  lemma {:induction false} EnterAllGives(records: seq<Record>, entries: seq<StackFrameEntry>)
    requires GoodEntries(entries) && forall r :: r in records ==> OfSome(r, entries)
    ensures Sound(EnterAll(records), entries) && HasAll(EnterAll(records), records)
  {
    hide IsText, ProperMap, GoodEntries, OfSome, Sound, HasAll;
    if records == [] {
      NothingEntered(entries);
    } else {
      var init, last := records[..|records| - 1], records[|records| - 1];
      assert last in records && init + [last] == records;
      EnterAllGives(init, entries);
      EnterSound(EnterAll(init), entries, last);
      if last.Init? {
        InitialIsThere(EnterAll(init), entries, last.address, last.size, last.rules);
      }
      KeepsAll(EnterAll(init), init, last);
    }
  }

  /** The table holds exactly this entry, in the entry's range. */
  ghost predicate HoldsEntry(t: Table, e: StackFrameEntry) {
    && 0 <= High(e) < TWO_64 && High(e) in t.initial && InitialOf(High(e), t.initial[High(e)], e)
    && HoldsChanges(t, e)
  }

  ghost predicate HoldsChanges(t: Table, e: StackFrameEntry) {
    && (forall d :: d in e.ruleChanges ==> d in t.deltas)
    && forall d :: d in t.deltas && InEntry(d, e) ==> DeltaOf(d, t.deltas[d], e)
  }

  lemma HoldsEach(t: Table, records: seq<Record>, entries: seq<StackFrameEntry>, i: nat)
    requires GoodEntries(entries) && Sound(t, entries) && i < |entries|
    requires AllRecords(records, entries[i]) && HasAll(t, records)
    ensures HoldsEntry(t, entries[i])
  {
    hide IsText, ProperMap, GoodEntries, Sound;
    var e := entries[i];
    GoodAt(entries, i);
    var rules :| Init(e.address, e.size, rules) in records;
    assert Has(t, Init(e.address, e.size, rules));
    var j := WhichInitial(t, entries, High(e));
    GoodAt(entries, j);
    SameEntry(entries, i, j, High(e));
    HoldsItsChanges(t, records, entries, i);
  }

  lemma HoldsItsChanges(t: Table, records: seq<Record>, entries: seq<StackFrameEntry>, i: nat)
    requires GoodEntries(entries) && Sound(t, entries) && i < |entries|
    requires AllRecords(records, entries[i]) && HasAll(t, records)
    ensures HoldsChanges(t, entries[i])
  {
    hide IsText, ProperMap, GoodEntries, Sound;
    var e := entries[i];
    forall d | d in e.ruleChanges ensures d in t.deltas {
      assert HasDelta(records, d);
      var text :| Delta(d, text) in records;
      assert Has(t, Delta(d, text));
    }
    forall d | d in t.deltas && InEntry(d, e) ensures DeltaOf(d, t.deltas[d], e) {
      var k := WhichDelta(t, entries, d);
      GoodAt(entries, k);
      SameEntry(entries, i, k, d);
    }
  }

  /** Applying the changes one after the other leaves the last one in force. */
  lemma {:induction false} ChangedRule(t: Table, e: StackFrameEntry, hi: int, info: Info, name: string)
    requires Good(e) && HoldsChanges(t, e) && e.address - 1 <= hi <= High(e)
    ensures var last := LastChange(e.ruleChanges, e.address, hi, name);
      Changed(t.deltas, e.address, hi, info).RuleFor(name) == if last.Some? then last else info.RuleFor(name)
    decreases hi - e.address + 1
  {
    hide IsText, ProperMap, Outcome, Tokens, Info.RuleFor;
    if e.address <= hi {
      ChangedRule(t, e, hi - 1, info, name);
      var before := Changed(t.deltas, e.address, hi - 1, info);
      if hi in t.deltas {
        assert DeltaOf(hi, t.deltas[hi], e);
        TextMeans(t.deltas[hi], e.ruleChanges[hi], before, name);
      }
    }
  }

  lemma EntryMeans(t: Table, e: StackFrameEntry, address: Address, found: Option<Info>)
    requires Good(e) && HoldsEntry(t, e) && InEntry(address, e) && IsFound(t, address, found)
    ensures found.Some? && forall name :: found.value.RuleFor(name) == RuleInForce(e, address, name)
  {
    hide IsText, ProperMap, Outcome, Tokens, Info.RuleFor, Changed, LastChange;
    var h: Address := High(e);
    assert Covers(t.initial, h, address);
    var text := t.initial[h].entry;
    var outcome := Outcome(NOTHING, Tokens(text, BREAKS), "", "");
    TextMeans(text, e.initialRules, NOTHING, "");
    forall name
      ensures Changed(t.deltas, e.address, address, outcome.1).RuleFor(name) == RuleInForce(e, address, name)
    {
      TextMeans(text, e.initialRules, NOTHING, name);
      NoRule(name);
      ChangedRule(t, e, address, outcome.1, name);
    }
  }

  lemma NoRule(name: string)
    ensures NOTHING.RuleFor(name) == None
  {
  }

  /** What was found at an address is what the entries put in force there, register by register, or nothing
      if no entry has the address. */
  ghost predicate IsMeant(entries: seq<StackFrameEntry>, address: Address, found: Option<Info>) {
    && (found.None? <==> forall i :: 0 <= i < |entries| ==> !InEntry(address, entries[i]))
    && forall i :: 0 <= i < |entries| && InEntry(address, entries[i]) && found.Some? ==>
         forall name :: found.value.RuleFor(name) == RuleInForce(entries[i], address, name)
  }

  /** Looking up any address in a table of the entries' records finds what the entries mean. */
  lemma TableMeans(records: seq<Record>, entries: seq<StackFrameEntry>, address: Address, found: Option<Info>)
    requires GoodEntries(entries) && Describe(records, entries) && IsFound(EnterAll(records), address, found)
    ensures IsMeant(entries, address, found)
  {
    hide IsText, ProperMap, Sound, HasAll, AllRecords, EnterAll, OfSome, Changed, Outcome, RuleInForce, Info.RuleFor;
    var t := EnterAll(records);
    EnterAllGives(records, entries);
    forall i | 0 <= i < |entries| && InEntry(address, entries[i])
      ensures found.Some? && forall name :: found.value.RuleFor(name) == RuleInForce(entries[i], address, name)
    {
      GoodAt(entries, i);
      HoldsEach(t, records, entries, i);
      EntryMeans(t, entries[i], address, found);
    }
    if found.Some? {
      var h :| Covers(t.initial, h, address);
      var j := WhichInitial(t, entries, h);
      assert InEntry(address, entries[j]);
    }
  }

  /** The records can be lines of a file. */
  ghost predicate Writable(r: Record) {
    (r.Init? || r.Delta?) && r.rules != "" && Solid(r.rules, LINE_BREAKS)
  }

  lemma GoodWritable(r: Record, entries: seq<StackFrameEntry>)
    requires GoodEntries(entries) && OfSome(r, entries)
    ensures Writable(r)
  {
    hide IsText, ProperMap, GoodEntries, Solid;
    var i := WhichRecord(r, entries);
    GoodAt(entries, i);
    match r
    case Init(_, _, rules) => TextIsLine(rules, entries[i].initialRules);
    case Delta(address, rules) => TextIsLine(rules, entries[i].ruleChanges[address]);
  }

  lemma HexIsLine(n: nat)
    ensures Solid(HexText(n), LINE_BREAKS)
  {
  }

  lemma TextIsOneLine(r: Record)
    requires Writable(r)
    ensures Text(r) != "" && Solid(Text(r), LINE_BREAKS)
  {
    hide HexText;
    match r
    case Init(address, size, rules) =>
      HexIsLine(address);
      HexIsLine(size);
    case Delta(address, rules) =>
      HexIsLine(address);
  }

  /** Reading the lines of a file gives the records that were written. */
  lemma {:induction false} LinesRead(records: seq<Record>)
    requires forall r :: r in records ==> Writable(r)
    ensures ReadAll(Lines(records)) == records
  {
    hide Writable, Text, ReadLine, ReadAll, LineOf;
    if records == [] {
      NothingToRead();
    } else {
      var rest := records[1..];
      assert records[0] in records && records == [records[0]] + rest;
      LinesRead(rest);
      LineRead(records[0], Lines(rest));
    }
  }

  lemma NothingToRead()
    ensures ReadAll("") == []
  {
  }

  /** A line before the others is one more record. */
  lemma LineRead(r: Record, others: string)
    requires Writable(r)
    ensures ReadAll(LineOf(r) + others) == [r] + ReadAll(others)
  {
    TextIsOneLine(r);
    TextParses(r, others);
    NextOf(Text(r), '\n', others, LINE_BREAKS);
    hide Text, Solid, Next, IsBare;
    assert LineOf(r) + others == Text(r) + ['\n'] + others;
  }

  lemma {:induction false} NoneBad(records: seq<Record>)
    requires forall r :: r in records ==> Writable(r)
    ensures CountBad(records) == 0
  {
    hide Solid;
    if records != [] {
      assert records[|records| - 1] in records;
      NoneBad(records[..|records| - 1]);
    }
  }

  /** What is read of the file, up to wherever reading stops, is all that was written. */
  lemma NothingStopsReading(records: seq<Record>, n: nat)
    requires StopsAfter(records, n) && CountBad(records) == 0
    ensures n == |records|
  {
    if n < |records| {
      FewerBad(records, n);
    }
  }

  lemma {:induction false} FewerBad(records: seq<Record>, n: nat)
    requires n <= |records|
    ensures CountBad(records[..n]) <= CountBad(records)
  {
    if n == |records| {
      assert records[..n] == records;
    } else {
      FewerBad(records[..|records| - 1], n);
      assert records[..|records| - 1][..n] == records[..n];
    }
  }

  lemma LoadsAll(stream: string, records: seq<Record>, entries: seq<StackFrameEntry>, t: Table, isCorrupt: bool)
    requires GoodEntries(entries) && Describe(records, entries) && stream == Lines(records)
    requires IsLoaded(ReadAll(stream), t, isCorrupt)
    ensures t == EnterAll(records) && !isCorrupt
  {
    hide GoodEntries, OfSome, AllRecords, Lines, ReadAll, EnterAll, Writable, CountBad;
    forall r | r in records ensures Writable(r) {
      GoodWritable(r, entries);
    }
    LinesRead(records);
    NoneBad(records);
    var n: nat :| StopsAfter(records, n) && t == EnterAll(records[..n]) && (isCorrupt <==> CountBad(records[..n]) > 0);
    NothingStopsReading(records, n);
    assert records[..n] == records;
  }

  /** A file that was written, then loaded, means what the entries mean, at every address. */
  lemma FileMeans(stream: string, entries: seq<StackFrameEntry>, t: Table, isCorrupt: bool, address: Address,
                  found: Option<Info>)
    requires GoodEntries(entries) && IsFile(stream, entries)
    requires IsLoaded(ReadAll(stream), t, isCorrupt) && IsFound(t, address, found)
    ensures IsMeant(entries, address, found) && !isCorrupt
  {
    hide GoodEntries, IsLoaded, IsFound, IsMeant, Describe, Lines, ReadAll, EnterAll, InSequence;
    var records :| InSequence(records, entries) && stream == Lines(records);
    SequenceDescribes(records, entries);
    LoadsAll(stream, records, entries, t, isCorrupt);
    TableMeans(records, entries, address, found);
  }

  /** Writing entries, loading the file and looking up an address, in a module loaded at `moduleBase`. */
  method WriteLoadFind(entries: seq<StackFrameEntry>, instruction: Address, moduleBase: Address)
    returns (rules: CFIFrameInfo?)
    requires GoodEntries(entries)
    ensures IsMeant(entries, Minus(instruction, moduleBase), if rules == null then None else Some(rules.Value()))
  {
    hide GoodEntries, IsFile, IsLoaded, IsFound, IsMeant, ReadAll;
    var stream := Write(entries);
    var m := new Module();
    m.LoadMapFromMemory(stream);
    rules := m.FindCFIFrameInfo(instruction, moduleBase);
    FileMeans(stream, entries, m.Value(), m.isCorrupt, Minus(instruction, moduleBase),
              if rules == null then None else Some(rules.Value()));
  }
}
