/** STACK CFI records of a symbol file: writing them, and reading a line of them. */
module StackCfi {
  import opened Addresses
  import opened CfiFrameInfo
  import opened RangeMap
  import opened Strtok
  import opened SymbolModule

  const LINE_BREAKS: string := "\r\n"
  const FIELD_BREAKS: string := " \r\n"

  function HexDigit(d: nat): (c: char)
    requires d < 16
    ensures '0' <= c <= '9' || 'a' <= c <= 'f'
  {
    if d < 10 then '0' + d as char else 'a' + (d - 10) as char
  }

  /** The value of a hexadecimal digit. */
  function DigitValue(c: char): Option<nat> {
    if '0' <= c <= '9' then Some((c - '0') as nat)
    else if 'a' <= c <= 'f' then Some((c - 'a') as nat + 10)
    else if 'A' <= c <= 'F' then Some((c - 'A') as nat + 10)
    else None
  }

  /** A number as `std::hex` prints it. */
  function HexText(n: nat): (s: string)
    ensures s != "" && forall c :: c in s ==> '0' <= c <= '9' || 'a' <= c <= 'f'
  {
    if n < 16 then [HexDigit(n)] else HexText(n / 16) + [HexDigit(n % 16)]
  }

  /** The digits of `s` behind those of `n`, up to anything else. */
  function HexValue(s: string, n: nat): nat {
    if s == "" || DigitValue(s[0]).None? then n else HexValue(s[1..], n * 16 + DigitValue(s[0]).value)
  }

  /** `strtoul(s, NULL, 16)` for text that starts with a digit; too large a number gives the largest. */
  function Strtoul16(s: string): Address {
    Min(HexValue(s, 0), TWO_64 - 1)
  }

  lemma {:induction false} HexValueMore(s: string, c: char, n: nat)
    requires (forall d :: d in s ==> DigitValue(d).Some?) && DigitValue(c).Some?
    ensures HexValue(s + [c], n) == HexValue(s, n) * 16 + DigitValue(c).value
  {
    if s == "" {
      assert s + [c] == [c] && [c][1..] == "";
    } else {
      assert (s + [c])[1..] == s[1..] + [c];
      HexValueMore(s[1..], c, n * 16 + DigitValue(s[0]).value);
    }
  }

  lemma {:induction false} HexReads(n: nat)
    ensures HexValue(HexText(n), 0) == n
  {
    if n < 16 {
      assert HexText(n)[1..] == "";
    } else {
      HexReads(n / 16);
      HexValueMore(HexText(n / 16), HexDigit(n % 16), 0);
    }
  }

  /** The digits, by their values. */
  lemma HexDigits(d: nat)
    requires d < 16
    ensures HexDigit(d) == "0123456789abcdef"[d]
    ensures DigitValue("0123456789abcdef"[d]) == Some(d) == DigitValue("0123456789ABCDEF"[d])
  {
  }

  /** There are no others. */
  lemma NoOtherDigits(c: char)
    ensures DigitValue(c).Some? <==> c in "0123456789abcdef" || c in "0123456789ABCDEF"
  {
    if '0' <= c <= '9' {
      assert c == "0123456789abcdef"[(c - '0') as nat];
    } else if 'a' <= c <= 'f' {
      assert c == "0123456789abcdef"[(c - 'a') as nat + 10];
    } else if 'A' <= c <= 'F' {
      assert c == "0123456789ABCDEF"[(c - 'A') as nat + 10];
    }
  }

  lemma {:induction false} HexStops(digits: string, rest: string, n: nat)
    requires (forall c :: c in digits ==> DigitValue(c).Some?) && (rest != "" ==> DigitValue(rest[0]).None?)
    ensures HexValue(digits + rest, n) == HexValue(digits, n)
  {
    if digits == "" {
      assert digits + rest == rest;
    } else {
      assert (digits + rest)[1..] == digits[1..] + rest;
      HexStops(digits[1..], rest, n * 16 + DigitValue(digits[0]).value);
    }
  }

  /** Each digit more multiplies by sixteen; nothing behind the digits counts; and a number that is too large
      gives the largest address. */
  lemma HexPlaces(s: string, c: char, rest: string)
    requires (forall d :: d in s ==> DigitValue(d).Some?) && DigitValue(c).Some?
    requires rest != "" ==> DigitValue(rest[0]).None?
    ensures HexValue("", 0) == 0 && HexValue(s + [c] + rest, 0) == 16 * HexValue(s, 0) + DigitValue(c).value
    ensures Strtoul16(s) == if HexValue(s, 0) < TWO_64 then HexValue(s, 0) else TWO_64 - 1
  {
    HexStops(s + [c], rest, 0);
    HexValueMore(s, c, 0);
  }

  /** Nothing is printed in front of a number. */
  lemma {:induction false} NoLeadingZero(n: nat)
    ensures n > 0 ==> HexText(n)[0] != '0'
    ensures HexText(0) == "0"
  {
    if n >= 16 {
      NoLeadingZero(n / 16);
    } else {
      HexDigits(n);
    }
  }

  datatype StackFrameEntry = StackFrameEntry(address: Address, size: Address, initialRules: map<string, string>,
                                             ruleChanges: map<Address, map<string, string>>)

  /** A record as text fields; reading a line may also give a record of another kind, or fail. */
  datatype Record =
    | Init(address: Address, size: Address, rules: string)
    | Delta(address: Address, rules: string)
    | Other
    | Bad

  function Fields(r: Record): string {
    match r
    case Init(address, size, rules) => "INIT " + (HexText(address) + " " + (HexText(size) + " " + rules))
    case Delta(address, rules) => HexText(address) + " " + rules
    case _ => ""
  }

  function Text(r: Record): string {
    "STACK CFI " + Fields(r)
  }

  /** The fields behind "STACK CFI". */
  function ParseCfi(s: string): Record {
    var (first, afterFirst) := Next(s, FIELD_BREAKS);
    if first.None? then Bad
    else if first.value == "INIT" then
      var (address, afterAddress) := Next(afterFirst, FIELD_BREAKS);
      if address.None? then Bad
      else
        var (size, afterSize) := Next(afterAddress, FIELD_BREAKS);
        if size.None? then Bad
        else
          var (rules, _) := Next(afterSize, LINE_BREAKS);
          if rules.None? then Bad else Init(Strtoul16(address.value), Strtoul16(size.value), rules.value)
    else
      var (rules, _) := Next(afterFirst, LINE_BREAKS);
      if rules.None? then Bad else Delta(Strtoul16(first.value), rules.value)
  }

  function SkipSpaces(s: string): string {
    if s == "" || s[0] != ' ' then s else SkipSpaces(s[1..])
  }

  /** What kind of stack record a line that begins with "STACK " holds, if a break ends it. */
  function Platform(line: string): (string, Option<string>)
    requires "STACK " <= line
  {
    var s := SkipSpaces(line[6..]);
    var platform := UpToBreak(s, FIELD_BREAKS);
    (platform, if |platform| < |s| then Some(s[|platform| + 1..]) else None)
  }

  /** The line ends with its platform. Looking for the fields, the code then steps over the NUL at the end of
      the line, into the text behind it. */
  predicate IsBare(line: string) {
    "STACK " <= line && Platform(line) == ("CFI", None)
  }

  /** A line that begins with "STACK ", and the text behind it. */
  function ParseStack(line: string, rest: string): Record
    requires "STACK " <= line
  {
    var (platform, fields) := Platform(line);
    if platform == "WIN" then Other
    else if platform == "CFI" then ParseCfi(if fields.Some? then fields.value else rest)
    else Bad
  }

  /** What is left of the text behind a line: if fields were looked for there, the NUL that ends the first of
      them now ends the text. */
  function RestAfter(line: string, rest: string): (left: string)
    ensures |left| <= |rest|
  {
    if IsBare(line) then
      var first := SkipBreaks(rest, FIELD_BREAKS);
      rest[..|rest| - |first| + |UpToBreak(first, FIELD_BREAKS)|]
    else rest
  }

  lemma HexIsSolid(n: nat)
    ensures Solid(HexText(n), FIELD_BREAKS) && HexText(n) != "INIT"
  {
    assert "INIT"[0] == 'I' && 'I' in "INIT";
  }

  lemma NextRules(rules: string)
    requires rules != "" && Solid(rules, LINE_BREAKS)
    ensures Next(rules, LINE_BREAKS).0 == Some(rules)
  {
    NextOfLast(rules, LINE_BREAKS);
  }

  lemma NextHex(n: Address, rest: string)
    ensures Next(HexText(n) + " " + rest, FIELD_BREAKS) == (Some(HexText(n)), rest)
    ensures Strtoul16(HexText(n)) == n && HexText(n) != "INIT"
  {
    HexIsSolid(n);
    HexReads(n);
    NextOf(HexText(n), ' ', rest, FIELD_BREAKS);
  }

  lemma CfiFields(fields: string)
    ensures var line := "STACK CFI " + fields; "STACK " <= line && Platform(line) == ("CFI", Some(fields))
  {
    var line, s := "STACK CFI " + fields, "CFI" + [' '] + fields;
    assert line == "STACK " + s && line[6..] == s;
    assert s == "CFI" + ([' '] + fields);
    UpToFirstBreak("CFI", [' '] + fields, FIELD_BREAKS);
    WholeWord("CFI", FIELD_BREAKS);
    assert s[4..] == fields;
  }

  lemma InitFields(address: Address, size: Address, rules: string)
    requires rules != "" && Solid(rules, LINE_BREAKS)
    ensures ParseCfi("INIT " + (HexText(address) + " " + (HexText(size) + " " + rules))) == Init(address, size, rules)
  {
    hide HexText, Strtoul16, Next;
    var afterInit := HexText(address) + " " + (HexText(size) + " " + rules);
    assert "INIT " + afterInit == "INIT" + [' '] + afterInit;
    NextOf("INIT", ' ', afterInit, FIELD_BREAKS);
    NextHex(address, HexText(size) + " " + rules);
    NextHex(size, rules);
    NextRules(rules);
  }

  lemma DeltaFields(address: Address, rules: string)
    requires rules != "" && Solid(rules, LINE_BREAKS)
    ensures ParseCfi(HexText(address) + " " + rules) == Delta(address, rules)
  {
    hide HexText, Strtoul16, Next;
    NextHex(address, rules);
    NextRules(rules);
  }

  /** A written record is read back as it was. */
  lemma TextParses(r: Record, rest: string)
    requires (r.Init? || r.Delta?) && r.rules != "" && Solid(r.rules, LINE_BREAKS)
    ensures "STACK " <= Text(r) && ParseStack(Text(r), rest) == r && !IsBare(Text(r))
  {
    hide Platform, ParseCfi, Solid;
    CfiFields(Fields(r));
    if r.Init? {
      InitFields(r.address, r.size, r.rules);
    } else {
      DeltaFields(r.address, r.rules);
    }
  }

  lemma HexMore(n: nat)
    requires n >= 16
    ensures HexText(n) == HexText(n / 16) + ["0123456789abcdef"[n % 16]]
  {
    HexDigits(n % 16);
  }

  lemma ExampleNumbers()
    ensures HexText(0x18c0) == "18c0" && HexText(0x350) == "350" && HexText(0x18c4) == "18c4"
  {
    hide HexText, HexDigit;
    HexMore(0x18c0);
    HexMore(0x18c4);
    HexMore(0x18c);
    HexMore(0x18);
    HexMore(0x350);
    HexMore(0x35);
    OneHex(1);
    OneHex(3);
  }

  lemma OneHex(n: nat)
    requires n < 16
    ensures HexText(n) == ["0123456789abcdef"[n]]
  {
    HexDigits(n);
  }

  /** The platform of a stack record decides what it is. */
  lemma PlatformDecides(platform: string, fields: string, rest: string)
    requires platform != "" && Solid(platform, FIELD_BREAKS)
    ensures var line := "STACK " + (platform + ([' '] + fields));
      && "STACK " <= line
      && ParseStack(line, rest)
         == if platform == "WIN" then Other else if platform == "CFI" then ParseCfi(fields) else Bad
  {
    var s := platform + ([' '] + fields);
    var line := "STACK " + s;
    assert line[6..] == s && s[0] == platform[0] && platform[0] in platform;
    UpToFirstBreak(platform, [' '] + fields, FIELD_BREAKS);
    WholeWord(platform, FIELD_BREAKS);
    assert s[|platform| + 1..] == fields;
    hide ParseCfi, UpToBreak;
  }

  /** Records that lack a field fail: one without an address, a change without rules, an initial record without an
      address, a size or rules. */
  lemma IncompleteFails(a: string, b: string)
    requires a != "" && Solid(a, FIELD_BREAKS) && b != "" && Solid(b, FIELD_BREAKS)
    ensures ParseCfi("") == Bad == ParseCfi(a)
    ensures ParseCfi("INIT" + [' '] + a) == Bad == ParseCfi("INIT" + [' '] + (a + [' '] + b))
  {
    NextOfLast(a, FIELD_BREAKS);
    NextOfLast(b, FIELD_BREAKS);
    NextOf(a, ' ', b, FIELD_BREAKS);
    NextOf("INIT", ' ', a, FIELD_BREAKS);
    NextOf("INIT", ' ', a + [' '] + b, FIELD_BREAKS);
    assert Next("", FIELD_BREAKS).0 == None && Next("", LINE_BREAKS).0 == None;
    hide Next, Strtoul16;
  }

  function LineOf(r: Record): string {
    Text(r) + "\n"
  }

  /** Records as lines of a file. */
  function Lines(records: seq<Record>): string {
    if records == [] then "" else LineOf(records[0]) + Lines(records[1..])
  }

  /** The text is that of the rules in `m`, in some order. */
  ghost predicate IsText(text: string, m: map<string, string>) {
    exists order :: IsOrder(order, m) && text == Printed(RegisterRules(m, order))
  }

  /** There are rules, and all are proper. */
  ghost predicate ProperMap(m: map<string, string>) {
    m != map[] && forall name :: name in m ==> Rule(name, m[name]).Proper()
  }

  lemma {:induction false} JoinedIsLine(tokens: seq<string>)
    requires forall t :: t in tokens ==> Solid(t, BREAKS)
    ensures Solid(Joined(tokens), LINE_BREAKS)
  {
    if tokens != [] {
      JoinedIsLine(tokens[..|tokens| - 1]);
      assert tokens[|tokens| - 1] in tokens;
      assert forall c :: c in LINE_BREAKS ==> c in BREAKS;
    }
  }

  lemma RuleIsLine(r: Rule)
    requires r.Proper()
    ensures Solid(r.Text(), LINE_BREAKS)
  {
    JoinedIsLine(Tokens(r.expression, BREAKS));
    assert forall c :: c in LINE_BREAKS ==> c in BREAKS;
  }

  lemma {:induction false} PrintedIsLine(rules: seq<Rule>)
    requires ProperRules(rules)
    ensures Solid(Printed(rules), LINE_BREAKS) && (rules != [] ==> Printed(rules) != "")
  {
    if rules != [] {
      hide Rule.Text;
      PrintedIsLine(rules[..|rules| - 1]);
      assert rules[|rules| - 1] in rules;
      RuleIsLine(rules[|rules| - 1]);
      TextNotEmpty(rules[|rules| - 1]);
    }
  }

  lemma TextNotEmpty(r: Rule)
    ensures r.Text() != ""
  {
  }

  lemma OrderGivesProper(m: map<string, string>, order: seq<string>)
    requires ProperMap(m) && IsOrder(order, m)
    ensures ProperRules(RegisterRules(m, order)) && order != []
  {
    var rules := RegisterRules(m, order);
    forall r | r in rules ensures r.Proper() {
      var i :| 0 <= i < |rules| && rules[i] == r;
      assert order[i] in order;
    }
    var k :| k in m;
    assert k in order;
  }

  /** The text of a proper rule map fits on a line. */
  lemma TextIsLine(text: string, m: map<string, string>)
    requires ProperMap(m) && IsText(text, m)
    ensures text != "" && Solid(text, LINE_BREAKS)
  {
    var order :| IsOrder(order, m) && text == Printed(RegisterRules(m, order));
    OrderGivesProper(m, order);
    PrintedIsLine(RegisterRules(m, order));
  }

  lemma {:induction false} WithOrder(info: Info, m: map<string, string>, order: seq<string>, name: string)
    requires forall k :: k in order ==> k in m && m[k] != ""
    ensures WithAll(info, RegisterRules(m, order)).RuleFor(name)
      == if name in order then Some(m[name]) else info.RuleFor(name)
    decreases |order|
  {
    var rules := RegisterRules(m, order);
    if order != [] {
      assert order[0] in order && rules[1..] == RegisterRules(m, order[1..]);
      WithOrder(info.With(rules[0]), m, order[1..], name);
      assert order == [order[0]] + order[1..];
    }
  }

  /** What parsing the text of a rule map does: its rules replace those that were in force. */
  lemma TextMeans(text: string, m: map<string, string>, info: Info, name: string)
    requires ProperMap(m) && IsText(text, m)
    ensures var (ok, now) := Outcome(info, Tokens(text, BREAKS), "", "");
      ok && now.RuleFor(name) == if name in m then Some(m[name]) else info.RuleFor(name)
  {
    var order :| IsOrder(order, m) && text == Printed(RegisterRules(m, order));
    OrderGivesProper(m, order);
    PrintedReads(RegisterRules(m, order));
    assert forall k :: k in order ==> Rule(k, m[k]).Proper();
    WithOrder(info, m, order, name);
  }

  /** The record is one of this entry. */
  ghost predicate RecordOf(r: Record, e: StackFrameEntry) {
    match r
    case Init(address, size, rules) => address == e.address && size == e.size && IsText(rules, e.initialRules)
    case Delta(address, rules) => address in e.ruleChanges && IsText(rules, e.ruleChanges[address])
    case _ => false
  }

  ghost predicate HasInit(records: seq<Record>, e: StackFrameEntry) {
    exists rules :: Init(e.address, e.size, rules) in records
  }

  ghost predicate HasDelta(records: seq<Record>, address: Address) {
    exists rules :: Delta(address, rules) in records
  }

  /** Every part of the entry has its record. */
  ghost predicate AllRecords(records: seq<Record>, e: StackFrameEntry) {
    HasInit(records, e) && forall d :: d in e.ruleChanges ==> HasDelta(records, d)
  }

  lemma {:induction false} LinesInTurn(a: seq<Record>, b: seq<Record>)
    ensures Lines(a + b) == Lines(a) + Lines(b)
  {
    hide LineOf;
    if a == [] {
      assert a + b == b;
    } else {
      assert (a + b)[1..] == a[1..] + b;
      LinesInTurn(a[1..], b);
    }
  }

  lemma OneLine(r: Record)
    ensures Lines([r]) == LineOf(r)
  {
    assert [r][1..] == [];
  }

  lemma OneMoreLine(records: seq<Record>, r: Record)
    ensures Lines(records + [r]) == Lines(records) + LineOf(r)
  {
    LinesInTurn(records, [r]);
    OneLine(r);
  }

  /** The parts of a line may be written one by one. */
  lemma InitLine(address: string, size: string, rules: string)
    ensures "STACK CFI INIT " + address + " " + size + " " + rules + "\n"
         == "STACK CFI " + ("INIT " + (address + " " + (size + " " + rules))) + "\n"
  {
    var tail := address + " " + (size + " " + rules);
    assert address + " " + size + " " + rules == tail;
    assert "STACK CFI INIT " + tail == "STACK CFI " + ("INIT " + tail);
    assert "STACK CFI INIT " + address + " " + size + " " + rules
      == "STACK CFI INIT " + (address + " " + size + " " + rules);
  }

  lemma DeltaLine(stream: string, address: string, rules: string)
    ensures stream + "STACK CFI " + address + " " + rules + "\n"
      == stream + ("STACK CFI " + (address + " " + rules) + "\n")
  {
    assert "STACK CFI " + address + " " + rules == "STACK CFI " + (address + " " + rules);
    assert stream + "STACK CFI " + address + " " + rules == stream + ("STACK CFI " + address + " " + rules);
  }

  lemma WithBreak(a: string, b: string)
    requires a + "\n" == b + "\n"
    ensures a == b
  {
    assert (a + "\n")[..|a|] == a && (b + "\n")[..|b|] == b;
    assert |a + "\n"| == |b + "\n"|;
  }

  /** How records look, and that lines that look so are these records. */
  lemma RecordLine(address: Address, size: Address, rules: string, rest: string)
    requires rules != "" && Solid(rules, LINE_BREAKS)
    ensures var line := "STACK CFI INIT " + HexText(address) + " " + HexText(size) + " " + rules;
      && "STACK " <= line && ParseStack(line, rest) == Init(address, size, rules)
      && LineOf(Init(address, size, rules)) == line + "\n"
    ensures var line := "STACK CFI " + HexText(address) + " " + rules;
      && "STACK " <= line && ParseStack(line, rest) == Delta(address, rules)
      && LineOf(Delta(address, rules)) == line + "\n"
  {
    TextParses(Init(address, size, rules), rest);
    TextParses(Delta(address, rules), rest);
    InitLine(HexText(address), HexText(size), rules);
    WithBreak("STACK CFI INIT " + HexText(address) + " " + HexText(size) + " " + rules,
              Text(Init(address, size, rules)));
    DeltaText(HexText(address), rules);
    hide HexText, ParseStack;
  }

  lemma DeltaText(address: string, rules: string)
    ensures "STACK CFI " + address + " " + rules == "STACK CFI " + (address + " " + rules)
  {
  }

  /** A record of a symbol file, and a change to it. */
  lemma RecordExample(initial: string, changes: string, rest: string)
    requires initial != "" && Solid(initial, LINE_BREAKS) && changes != "" && Solid(changes, LINE_BREAKS)
    ensures var line := "STACK CFI INIT " + "18c0" + " " + "350" + " " + initial;
      && "STACK " <= line && ParseStack(line, rest) == Init(0x18c0, 0x350, initial)
      && LineOf(Init(0x18c0, 0x350, initial)) == line + "\n"
    ensures var line := "STACK CFI " + "18c4" + " " + changes;
      && "STACK " <= line && ParseStack(line, rest) == Delta(0x18c4, changes)
      && LineOf(Delta(0x18c4, changes)) == line + "\n"
  {
    ExampleNumbers();
    assert 0x18c4 < TWO_64;
    hide *;
    RecordLine(0x18c0, 0x350, initial, rest);
    RecordLine(0x18c4, 0, changes, rest);
  }

  /** How a rule map of one rule looks as text. */
  lemma RuleMapLooks(text: string, name: string, expression: string)
    requires IsText(text, map[name := expression])
    ensures text == name + ": " + expression
  {
    var m := map[name := expression];
    var order :| IsOrder(order, m) && text == Printed(RegisterRules(m, order));
    OnlyOrder(name, expression, order);
    assert RegisterRules(m, order) == [Rule(name, expression)];
    OnePrinted(Rule(name, expression));
    RuleLooks(name, expression);
    hide Printed, Rule.Text;
  }

  method WriteRuleMap(ruleMap: map<string, string>) returns (text: string)
    ensures IsText(text, ruleMap)
  {
    hide Printed, KeysCovered;
    text := "";
    NothingPrinted();
    ghost var order: seq<string> := [];
    assert RegisterRules(ruleMap, []) == [];
    NoneCovered(ruleMap);
    var left := ruleMap.Keys;
    while left != {}
      invariant KeysCovered(order, left, ruleMap) && text == Printed(RegisterRules(ruleMap, order))
      invariant left == ruleMap.Keys <==> text == ""
      decreases |left|
    {
      var name :| name in left;
      CoverOne(order, left, ruleMap, name);
      ghost var r := Rule(name, ruleMap[name]);
      assert RegisterRules(ruleMap, order + [name]) == RegisterRules(ruleMap, order) + [r];
      PrintedMore(RegisterRules(ruleMap, order), r);
      if left != ruleMap.Keys {
        text := text + " ";
      }
      text := text + name + ": " + ruleMap[name];
      assert text[|text| - 1 - |ruleMap[name]|] == ' ' && name in ruleMap.Keys;
      left, order := left - {name}, order + [name];
    }
    AllCovered(order, ruleMap);
  }

  /** The records of an entry: its INIT record, and then one for each address with changes, in ascending order,
      as far as the addresses below `end`. */
  ghost predicate RecordsBelow(records: seq<Record>, e: StackFrameEntry, end: int) {
    && records != [] && records[0].Init? && AllOf(records, e)
    && (forall i :: 0 < i < |records| ==> records[i].Delta? && records[i].address < end)
    && (forall i, j :: 0 < i < j < |records| ==> records[i].address < records[j].address)
    && forall d :: d in e.ruleChanges && d < end ==> HasDelta(records, d)
  }

  ghost predicate AllOf(records: seq<Record>, entry: StackFrameEntry) {
    forall r :: r in records ==> RecordOf(r, entry)
  }

  lemma FirstRecord(e: StackFrameEntry, rules: string)
    requires IsText(rules, e.initialRules)
    ensures RecordsBelow([Init(e.address, e.size, rules)], e, 0)
  {
  }

  lemma NextRecord(records: seq<Record>, e: StackFrameEntry, end: int, address: Address, rules: string)
    requires RecordsBelow(records, e, end) && IsLowerBound(e.ruleChanges, end, Some(address))
    requires IsText(rules, e.ruleChanges[address])
    ensures RecordsBelow(records + [Delta(address, rules)], e, address + 1)
  {
    hide IsText;
    var more := records + [Delta(address, rules)];
    assert more[|records|] in more;
    forall d | d in e.ruleChanges && d < address + 1 ensures HasDelta(more, d) {
      if d < end {
        var text :| Delta(d, text) in records;
        assert Delta(d, text) in more;
      } else {
        assert d == address;
      }
    }
  }

  lemma LastRecord(records: seq<Record>, e: StackFrameEntry, end: int)
    requires RecordsBelow(records, e, end) && IsLowerBound(e.ruleChanges, end, None) && end <= TWO_64
    ensures IsEntry(records, e)
  {
    hide AllOf;
  }

  ghost predicate IsEntry(records: seq<Record>, e: StackFrameEntry) {
    RecordsBelow(records, e, TWO_64)
  }

  lemma EntryHasAll(records: seq<Record>, e: StackFrameEntry)
    requires IsEntry(records, e)
    ensures AllOf(records, e) && AllRecords(records, e)
  {
    assert records[0] in records && RecordOf(records[0], e);
    assert Init(e.address, e.size, records[0].rules) in records;
  }

  /** The records of an entry, one by one. */
  lemma EntryInOrder(records: seq<Record>, e: StackFrameEntry, i: nat)
    requires IsEntry(records, e) && i < |records|
    ensures i == 0 ==> (
              && records[0].Init? && records[0].address == e.address && records[0].size == e.size
              && IsText(records[0].rules, e.initialRules))
    ensures i > 0 ==> (
              && records[i].Delta? && records[i].address in e.ruleChanges
              && IsText(records[i].rules, e.ruleChanges[records[i].address]))
    ensures 0 < i && i + 1 < |records| ==> records[i].address < records[i + 1].address
    ensures forall d :: d in e.ruleChanges ==> exists j :: 0 < j < |records| && records[j].address == d
  {
    hide IsText;
    assert records[i] in records && RecordOf(records[i], e);
    forall d | d in e.ruleChanges ensures exists j :: 0 < j < |records| && records[j].address == d {
      assert HasDelta(records, d);
      var rules :| Delta(d, rules) in records;
      var j :| 0 <= j < |records| && records[j] == Delta(d, rules);
      assert j > 0;
    }
  }

  ghost predicate IsEntryText(stream: string, entry: StackFrameEntry) {
    exists records :: IsEntry(records, entry) && stream == Lines(records)
  }

  /** The STACK CFI INIT record of an entry, and then its STACK CFI records. */
  method WriteEntry(entry: StackFrameEntry) returns (stream: string)
    ensures IsEntryText(stream, entry)
  {
    hide IsText, RecordsBelow, Lines, HexText, IsLowerBound, IsEntry;
    var rules := WriteRuleMap(entry.initialRules);
    stream := "STACK CFI INIT " + HexText(entry.address) + " " + HexText(entry.size) + " " + rules + "\n";
    InitLine(HexText(entry.address), HexText(entry.size), rules);
    ghost var records := [Init(entry.address, entry.size, rules)];
    OneLine(records[0]);
    FirstRecord(entry, rules);
    ghost var end: int := 0;
    var delta: Option<Address> := LowerBound(entry.ruleChanges, 0);
    while delta.Some?
      invariant RecordsBelow(records, entry, end) && IsLowerBound(entry.ruleChanges, end, delta)
      invariant 0 <= end <= TWO_64 && stream == Lines(records)
      decreases TWO_64 - end
    {
      var address := delta.value;
      BoundIsKey(entry.ruleChanges, end, address);
      rules := WriteRuleMap(entry.ruleChanges[address]);
      NextRecord(records, entry, end, address, rules);
      DeltaLine(stream, HexText(address), rules);
      OneMoreLine(records, Delta(address, rules));
      stream := stream + "STACK CFI " + HexText(address) + " " + rules + "\n";
      records, end := records + [Delta(address, rules)], address as int + 1;
      delta := LowerBound(entry.ruleChanges, address as int + 1);
    }
    LastRecord(records, entry, end);
  }

  lemma BoundIsKey<V>(m: map<Address, V>, a: int, h: Address)
    requires IsLowerBound(m, a, Some(h))
    ensures h in m && a <= h
  {
  }

  /** Every record is one of an entry, and every entry has its records. */
  ghost predicate Describe(records: seq<Record>, entries: seq<StackFrameEntry>) {
    && (forall r :: r in records ==> OfSome(r, entries))
    && forall i :: 0 <= i < |entries| ==> AllRecords(records, entries[i])
  }

  ghost predicate OfSome(r: Record, entries: seq<StackFrameEntry>) {
    exists i :: 0 <= i < |entries| && RecordOf(r, entries[i])
  }

  lemma DescribeOneMore(records: seq<Record>, entries: seq<StackFrameEntry>, more: seq<Record>, e: StackFrameEntry)
    requires Describe(records, entries) && AllOf(more, e) && AllRecords(more, e)
    ensures Describe(records + more, entries + [e])
  {
    var all, es := records + more, entries + [e];
    forall r | r in all ensures OfSome(r, es) {
      if r in records {
        var i :| 0 <= i < |entries| && RecordOf(r, entries[i]);
        assert RecordOf(r, es[i]);
      } else {
        assert RecordOf(r, es[|entries|]);
      }
    }
    forall i | 0 <= i < |es| ensures AllRecords(all, es[i]) {
      if i < |entries| {
        MoreRecords(records, more, es[i]);
      } else {
        MoreRecords(records, more, e);
      }
    }
  }

  lemma MoreRecords(a: seq<Record>, b: seq<Record>, e: StackFrameEntry)
    ensures AllRecords(a, e) || AllRecords(b, e) ==> AllRecords(a + b, e)
  {
    assert forall r :: r in a || r in b ==> r in a + b;
  }

  /** The records of all entries, one entry after the other. */
  ghost predicate InSequence(records: seq<Record>, entries: seq<StackFrameEntry>)
    decreases |entries|, 1
  {
    if entries == [] then records == []
    else exists k :: 0 <= k <= |records| && EndsWith(records, k, entries)
  }

  /** The records from `k` on are those of the last entry. */
  ghost predicate EndsWith(records: seq<Record>, k: nat, entries: seq<StackFrameEntry>)
    requires k <= |records| && entries != []
    decreases |entries|, 0
  {
    InSequence(records[..k], entries[..|entries| - 1]) && IsEntry(records[k..], entries[|entries| - 1])
  }

  lemma {:induction false} SequenceDescribes(records: seq<Record>, entries: seq<StackFrameEntry>)
    requires InSequence(records, entries)
    ensures Describe(records, entries)
    decreases |entries|
  {
    if entries != [] {
      hide IsEntry, Describe;
      var k: nat :| k <= |records| && EndsWith(records, k, entries);
      SequenceDescribes(records[..k], entries[..|entries| - 1]);
      hide InSequence, EndsWith;
      LastDescribes(records, k, entries);
    }
  }

  lemma LastDescribes(records: seq<Record>, k: nat, entries: seq<StackFrameEntry>)
    requires k <= |records| && entries != []
    requires Describe(records[..k], entries[..|entries| - 1]) && IsEntry(records[k..], entries[|entries| - 1])
    ensures Describe(records, entries)
  {
    hide IsEntry, Describe, AllOf, AllRecords;
    var n := |entries| - 1;
    EntryHasAll(records[k..], entries[n]);
    DescribeOneMore(records[..k], entries[..n], records[k..], entries[n]);
    assert records[..k] + records[k..] == records && entries[..n] + [entries[n]] == entries;
  }

  /** The text is the lines of the records of all entries. */
  ghost predicate IsFile(stream: string, entries: seq<StackFrameEntry>) {
    exists records :: InSequence(records, entries) && stream == Lines(records)
  }

  lemma NothingWritten()
    ensures IsFile("", [])
  {
    assert InSequence([], []) && Lines([]) == "";
  }

  lemma FileGrows(stream: string, entries: seq<StackFrameEntry>, text: string, e: StackFrameEntry)
    requires IsFile(stream, entries) && IsEntryText(text, e)
    ensures IsFile(stream + text, entries + [e])
  {
    var records :| InSequence(records, entries) && stream == Lines(records);
    var more :| IsEntry(more, e) && text == Lines(more);
    SequenceGrows(records, entries, more, e);
    LinesInTurn(records, more);
  }

  lemma SequenceGrows(records: seq<Record>, entries: seq<StackFrameEntry>, more: seq<Record>, e: StackFrameEntry)
    requires InSequence(records, entries) && IsEntry(more, e)
    ensures InSequence(records + more, entries + [e])
  {
    hide IsEntry;
    var all, es := records + more, entries + [e];
    assert all[..|records|] == records && all[|records|..] == more && es[..|entries|] == entries;
    assert EndsWith(all, |records|, es);
  }

  method Write(entries: seq<StackFrameEntry>) returns (stream: string)
    ensures IsFile(stream, entries)
  {
    hide IsFile, IsEntryText;
    stream := "";
    NothingWritten();
    assert entries[..0] == [];
    for i := 0 to |entries|
      invariant IsFile(stream, entries[..i])
    {
      var text := WriteEntry(entries[i]);
      FileGrows(stream, entries[..i], text, entries[i]);
      assert entries[..i + 1] == entries[..i] + [entries[i]];
      stream := stream + text;
    }
    assert entries[..|entries|] == entries;
  }
}
