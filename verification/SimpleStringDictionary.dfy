/** A string map in fixed storage. Its strings are C strings in buffers of fixed size. */
module SimpleStringDictionary {
  import opened CStrings
  import opened SymbolModule

  /** `strncmp(a, b, n) == 0` for arrays that hold a NUL or at least `n` characters. */
  predicate SameFirst(a: seq<char>, b: seq<char>, n: nat) {
    n == 0
    || (a != [] && b != [] && a[0] == b[0] && (a[0] == NUL || SameFirst(a[1..], b[1..], n - 1)))
  }

  /** What `strncpy` and a forced NUL at the end leave in a buffer of size `n`. */
  function Stored(s: string, n: nat): (buffer: seq<char>)
    requires 0 < n
    ensures |buffer| == n && buffer[n - 1] == NUL
  {
    seq(n, i requires 0 <= i < n => if i < |s| then s[i] else NUL)[n - 1 := NUL]
  }

  function Truncated(s: string, n: nat): string {
    if |s| <= n then s else s[..n]
  }

  /** As much of the text from its beginning as fits. */
  lemma TruncatedMeans(s: string, n: nat)
    ensures var t := Truncated(s, n);
      t <= s && |t| <= n && (|t| == |s| || |t| == n)
  {
  }

  lemma StoredText(s: string, n: nat)
    requires 0 < n && NUL !in s
    ensures Text(Stored(s, n)) == Truncated(s, n - 1)
  {
    var t := Truncated(s, n - 1);
    assert Stored(s, n)[..|t|] == t;
    TextUnique(Stored(s, n), t);
  }

  /** Comparing with a terminated buffer, up to its size, compares with its text. */
  lemma {:induction false} ComparesText(key: string, buffer: seq<char>)
    requires NUL !in key && buffer != [] && buffer[|buffer| - 1] == NUL
    ensures SameFirst(key + [NUL], buffer, |buffer|) <==> key == Text(buffer)
  {
    if key != [] && buffer[0] == key[0] {
      assert (key + [NUL])[1..] == key[1..] + [NUL];
      ComparesText(key[1..], buffer[1..]);
      assert key == [key[0]] + key[1..];
    }
  }

  datatype Entry = Entry(key: seq<char>, value: seq<char>) {
    predicate IsActive()
      requires key != []
    {
      key[0] != NUL
    }
  }

  ghost predicate Terminated(buffer: seq<char>, size: nat) {
    |buffer| == size > 0 && buffer[size - 1] == NUL
  }

  /** All buffers have their sizes and hold terminated strings. */
  ghost predicate BuffersOk(es: seq<Entry>, keySize: nat, valueSize: nat) {
    forall e :: e in es ==> Terminated(e.key, keySize) && Terminated(e.value, valueSize)
  }

  ghost predicate HaveKeys(es: seq<Entry>) {
    forall e :: e in es ==> e.key != []
  }

  /** The first entry from `i` on that `strncmp` takes for `key`, or the end. */
  ghost function FindKey(es: seq<Entry>, key: string, i: nat): (k: nat)
    requires i <= |es|
    ensures i <= k <= |es|
    decreases |es| - i
  {
    if i == |es| || SameFirst(key + [NUL], es[i].key, |es[i].key|) then i else FindKey(es, key, i + 1)
  }

  /** The first inactive entry from `i` on, or the end. */
  ghost function FindFree(es: seq<Entry>, i: nat): (k: nat)
    requires i <= |es| && HaveKeys(es)
    ensures i <= k <= |es| && (k < |es| ==> !es[k].IsActive())
    ensures forall j :: i <= j < k ==> es[j].IsActive()
    decreases |es| - i
  {
    if i == |es| || !es[i].IsActive() then i else FindFree(es, i + 1)
  }

  lemma {:induction false} FindKeyMeans(es: seq<Entry>, key: string, i: nat, keySize: nat, valueSize: nat)
    requires i <= |es| && BuffersOk(es, keySize, valueSize) && NUL !in key
    ensures var k := FindKey(es, key, i);
      (k < |es| ==> Text(es[k].key) == key) && forall j :: i <= j < k ==> Text(es[j].key) != key
    decreases |es| - i
  {
    if i < |es| {
      assert es[i] in es;
      ComparesText(key, es[i].key);
      FindKeyMeans(es, key, i + 1, keySize, valueSize);
    }
  }

  /** What the operations do to the entries. */

  ghost function Lookup(es: seq<Entry>, key: string): Option<string> {
    var k := FindKey(es, key, 0);
    if k < |es| then Some(Text(es[k].value)) else None
  }

  ghost function Set(es: seq<Entry>, key: string, value: string, keySize: nat, valueSize: nat): seq<Entry>
    requires BuffersOk(es, keySize, valueSize) && 0 < keySize && 0 < valueSize
  {
    var k := FindKey(es, key, 0);
    if key == "" then es
    else if k < |es| then es[k := es[k].(value := Stored(value, valueSize))]
    else
      var free := FindFree(es, 0);
      if free < |es| then es[free := Entry(Stored(key, keySize), Stored(value, valueSize))] else es
  }

  ghost function Remove(es: seq<Entry>, key: string): seq<Entry>
    requires forall e :: e in es ==> e.key != [] && e.value != []
  {
    var k := FindKey(es, key, 0);
    if k < |es| then es[k := Entry(es[k].key[0 := NUL], es[k].value[0 := NUL])] else es
  }

  /** The entries as a map. */

  ghost function Contents(es: seq<Entry>): map<string, string> {
    if es == [] then map[]
    else
      var e, rest := es[|es| - 1], Contents(es[..|es| - 1]);
      if Text(e.key) == "" then rest else rest[Text(e.key) := Text(e.value)]
  }

  /** No key twice. */
  ghost predicate KeysDistinct(es: seq<Entry>) {
    forall i, j :: 0 <= i < j < |es| && Text(es[i].key) != "" ==> Text(es[i].key) != Text(es[j].key)
  }

  ghost function CountActive(es: seq<Entry>): nat {
    if es == [] then 0
    else CountActive(es[..|es| - 1]) + if Text(es[|es| - 1].key) == "" then 0 else 1
  }

  /** `m` holds the keys and values of the active entries. */
  ghost predicate Holds(es: seq<Entry>, m: map<string, string>) {
    && (forall i :: 0 <= i < |es| && Text(es[i].key) != "" ==> MapsTo(m, es[i]))
    && forall k :: k in m ==> InEntries(es, k)
  }

  ghost predicate MapsTo(m: map<string, string>, e: Entry) {
    Text(e.key) in m && m[Text(e.key)] == Text(e.value)
  }

  ghost predicate InEntries(es: seq<Entry>, k: string) {
    k != "" && exists i :: 0 <= i < |es| && Text(es[i].key) == k
  }

  lemma HoldsOneMore(init: seq<Entry>, m: map<string, string>, e: Entry)
    requires KeysDistinct(init + [e]) && Holds(init, m)
    ensures Text(e.key) == "" ==> Holds(init + [e], m)
    ensures Text(e.key) != "" ==> Text(e.key) !in m && Holds(init + [e], m[Text(e.key) := Text(e.value)])
  {
    var es := init + [e];
    forall k ensures InEntries(es, k) <==> InEntries(init, k) || (k != "" && k == Text(e.key)) {
      if InEntries(init, k) {
        var i :| 0 <= i < |init| && Text(init[i].key) == k;
        assert Text(es[i].key) == k;
      }
      assert Text(es[|init|].key) == Text(e.key);
    }
    assert !InEntries(init, Text(e.key)) by {
      forall i | 0 <= i < |init| ensures Text(init[i].key) != Text(e.key) || Text(e.key) == "" {
        assert es[i] == init[i] && es[|init|] == e;
      }
    }
    forall i | 0 <= i < |init| && Text(es[i].key) != "" ensures MapsTo(m, es[i]) {
      assert MapsTo(m, init[i]);
    }
  }

  lemma {:induction false} ContentsHold(es: seq<Entry>)
    requires KeysDistinct(es)
    ensures Holds(es, Contents(es)) && |Contents(es)| == CountActive(es)
  {
    if es != [] {
      hide Holds;
      var n := |es| - 1;
      assert es == es[..n] + [es[n]];
      ContentsHold(es[..n]);
      HoldsOneMore(es[..n], Contents(es[..n]), es[n]);
    }
  }

  lemma OneContents(es: seq<Entry>, m: map<string, string>)
    requires KeysDistinct(es) && Holds(es, m)
    ensures m == Contents(es)
  {
    ContentsHold(es);
    forall k | k in m || k in Contents(es) ensures k in m && k in Contents(es) && m[k] == Contents(es)[k] {
      assert InEntries(es, k);
      var i :| 0 <= i < |es| && Text(es[i].key) == k;
      assert MapsTo(m, es[i]) && MapsTo(Contents(es), es[i]);
    }
  }

  /** Replacing entry `k`, which is free or has this very key. */
  lemma HoldsReplaced(es: seq<Entry>, m: map<string, string>, k: nat, e: Entry)
    requires KeysDistinct(es) && Holds(es, m) && k < |es|
    requires Text(es[k].key) == "" || Text(es[k].key) == Text(e.key)
    requires forall j :: 0 <= j < |es| && j != k ==> Text(es[j].key) != Text(e.key)
    requires Text(e.key) != ""
    ensures KeysDistinct(es[k := e]) && Holds(es[k := e], m[Text(e.key) := Text(e.value)])
  {
    var es', m' := es[k := e], m[Text(e.key) := Text(e.value)];
    forall i | 0 <= i < |es'| && Text(es'[i].key) != "" ensures MapsTo(m', es'[i]) {
      assert i != k ==> MapsTo(m, es[i]);
    }
    forall x | x in m' ensures InEntries(es', x) {
      if x == Text(e.key) {
        assert Text(es'[k].key) == x;
      } else {
        assert InEntries(es, x);
        var i :| 0 <= i < |es| && Text(es[i].key) == x;
        assert Text(es'[i].key) == x;
      }
    }
  }

  lemma HoldsRemoved(es: seq<Entry>, m: map<string, string>, k: nat, e: Entry)
    requires KeysDistinct(es) && Holds(es, m) && k < |es| && Text(e.key) == "" && Text(es[k].key) != ""
    ensures KeysDistinct(es[k := e]) && Holds(es[k := e], m - {Text(es[k].key)})
  {
    var es', m' := es[k := e], m - {Text(es[k].key)};
    forall i | 0 <= i < |es'| && Text(es'[i].key) != "" ensures MapsTo(m', es'[i]) {
      assert MapsTo(m, es[i]);
      assert Text(es[i].key) != Text(es[k].key);
    }
    forall x | x in m' ensures InEntries(es', x) {
      assert InEntries(es, x);
      var i :| 0 <= i < |es| && Text(es[i].key) == x;
      assert Text(es'[i].key) == x;
    }
  }

  lemma {:induction false} FullOrFree(es: seq<Entry>)
    requires HaveKeys(es)
    ensures CountActive(es) <= |es|
    ensures CountActive(es) == |es| <==> FindFree(es, 0) == |es|
  {
    if es != [] {
      var n := |es| - 1;
      FullOrFree(es[..n]);
      var init := FindFree(es[..n], 0);
      assert init < n ==> !es[init].IsActive();
      assert init == n ==> forall j :: 0 <= j < n ==> es[j] == es[..n][j] && es[j].IsActive();
    }
  }

  /** The map as its users see it: a map of at most `numEntries` keys. */
  function Put(m: map<string, string>, key: string, value: string, numEntries: nat, valueSize: nat): map<string, string>
    requires 0 < valueSize
  {
    if key in m || |m| < numEntries then m[key := Truncated(value, valueSize - 1)] else m
  }

  lemma SetAgrees(es: seq<Entry>, key: string, value: string, keySize: nat, valueSize: nat)
    requires BuffersOk(es, keySize, valueSize) && KeysDistinct(es) && 0 < |key| < keySize && 0 < valueSize
    requires NUL !in key && NUL !in value
    ensures var es' := Set(es, key, value, keySize, valueSize);
      && BuffersOk(es', keySize, valueSize) && KeysDistinct(es') && |es'| == |es|
      && Contents(es') == Put(Contents(es), key, value, |es|, valueSize)
  {
    hide BuffersOk, KeysDistinct, Holds, Contents, CountActive;
    ContentsHold(es);
    FindKeyMeans(es, key, 0, keySize, valueSize);
    SetKeepsBuffers(es, key, value, keySize, valueSize);
    FullOrFree(es);
    KeyInContents(es, key);
    StoredText(key, keySize);
    StoredText(value, valueSize);
    var k, free := FindKey(es, key, 0), FindFree(es, 0);
    if k < |es| {
      var e := es[k].(value := Stored(value, valueSize));
      OthersDiffer(es, k);
      HoldsReplaced(es, Contents(es), k, e);
      OneContents(es[k := e], Contents(es)[key := Text(e.value)]);
    } else if free < |es| {
      var e := Entry(Stored(key, keySize), Stored(value, valueSize));
      HoldsReplaced(es, Contents(es), free, e);
      OneContents(es[free := e], Contents(es)[key := Text(e.value)]);
    }
  }

  lemma SetKeepsBuffers(es: seq<Entry>, key: string, value: string, keySize: nat, valueSize: nat)
    requires BuffersOk(es, keySize, valueSize) && 0 < keySize && 0 < valueSize
    ensures BuffersOk(Set(es, key, value, keySize, valueSize), keySize, valueSize)
    ensures HaveKeys(es)
  {
  }

  lemma OthersDiffer(es: seq<Entry>, k: nat)
    requires KeysDistinct(es) && k < |es| && Text(es[k].key) != ""
    ensures forall j :: 0 <= j < |es| && j != k ==> Text(es[j].key) != Text(es[k].key)
  {
  }

  lemma KeyInContents(es: seq<Entry>, key: string)
    requires KeysDistinct(es)
    ensures key in Contents(es) <==> InEntries(es, key)
  {
    ContentsHold(es);
    if InEntries(es, key) {
      var i :| 0 <= i < |es| && Text(es[i].key) == key;
      assert MapsTo(Contents(es), es[i]);
    }
  }

  lemma RemoveKeepsBuffers(es: seq<Entry>, key: string, keySize: nat, valueSize: nat)
    requires BuffersOk(es, keySize, valueSize)
    ensures (forall e :: e in es ==> e.key != [] && e.value != []) && BuffersOk(Remove(es, key), keySize, valueSize)
  {
  }

  lemma RemoveAgrees(es: seq<Entry>, key: string, keySize: nat, valueSize: nat)
    requires BuffersOk(es, keySize, valueSize) && KeysDistinct(es) && key != "" && NUL !in key
    requires forall e :: e in es ==> e.key != [] && e.value != []
    ensures BuffersOk(Remove(es, key), keySize, valueSize) && KeysDistinct(Remove(es, key))
    ensures |Remove(es, key)| == |es| && Contents(Remove(es, key)) == Contents(es) - {key}
  {
    hide BuffersOk, KeysDistinct, Holds, Contents, CountActive;
    RemoveKeepsBuffers(es, key, keySize, valueSize);
    ContentsHold(es);
    FindKeyMeans(es, key, 0, keySize, valueSize);
    KeyInContents(es, key);
    var k := FindKey(es, key, 0);
    if k < |es| {
      var e := Entry(es[k].key[0 := NUL], es[k].value[0 := NUL]);
      HoldsRemoved(es, Contents(es), k, e);
      OneContents(es[k := e], Contents(es) - {key});
    }
  }

  lemma LookupAgrees(es: seq<Entry>, key: string, keySize: nat, valueSize: nat)
    requires BuffersOk(es, keySize, valueSize) && KeysDistinct(es) && key != "" && NUL !in key
    ensures Lookup(es, key) == if key in Contents(es) then Some(Contents(es)[key]) else None
  {
    ContentsHold(es);
    FindKeyMeans(es, key, 0, keySize, valueSize);
    KeyInContents(es, key);
    var k := FindKey(es, key, 0);
    assert k < |es| ==> MapsTo(Contents(es), es[k]);
  }

  lemma TextIsShorter(buffer: seq<char>, size: nat)
    requires Terminated(buffer, size)
    ensures |Text(buffer)| < size
  {
    assert buffer[size - 1] in buffer;
    assert |Text(buffer)| == size ==> Text(buffer) == buffer;
  }

  /** Stored texts are shorter than their buffers, so a longer key never finds its entry. */
  lemma LongKeyIsNeverFound(es: seq<Entry>, key: string, keySize: nat, valueSize: nat)
    requires BuffersOk(es, keySize, valueSize) && NUL !in key && keySize <= |key|
    ensures FindKey(es, key, 0) == |es|
  {
    FindKeyMeans(es, key, 0, keySize, valueSize);
    var k := FindKey(es, key, 0);
    if k < |es| {
      TextIsShorter(es[k].key, keySize);
    }
  }

  lemma FoundAt(es: seq<Entry>, key: string, k: nat, keySize: nat, valueSize: nat)
    requires BuffersOk(es, keySize, valueSize) && NUL !in key && k < |es| && Text(es[k].key) == key
    requires forall j :: 0 <= j < k ==> Text(es[j].key) != key
    ensures FindKey(es, key, 0) == k
  {
    FindKeyMeans(es, key, 0, keySize, valueSize);
  }

  /** Setting a key makes it readable exactly if it fits its buffer and there is an entry for it. */
  lemma SetThenGet(es: seq<Entry>, key: string, value: string, keySize: nat, valueSize: nat)
    requires BuffersOk(es, keySize, valueSize) && 0 < keySize && 0 < valueSize && HaveKeys(es)
    requires NUL !in key && NUL !in value && key != ""
    ensures Lookup(Set(es, key, value, keySize, valueSize), key)
      == if |key| < keySize && (FindKey(es, key, 0) < |es| || FindFree(es, 0) < |es|)
         then Some(Truncated(value, valueSize - 1)) else None
  {
    hide BuffersOk, HaveKeys;
    SetKeepsBuffers(es, key, value, keySize, valueSize);
    StoredText(key, keySize);
    StoredText(value, valueSize);
    FindKeyMeans(es, key, 0, keySize, valueSize);
    var es' := Set(es, key, value, keySize, valueSize);
    var k, free := FindKey(es, key, 0), FindFree(es, 0);
    if |key| >= keySize {
      LongKeyIsNeverFound(es', key, keySize, valueSize);
    } else if k < |es| {
      FoundAt(es', key, k, keySize, valueSize);
    } else if free < |es| {
      FoundAt(es', key, free, keySize, valueSize);
    }
  }

  ghost predicate HasText(es: seq<Entry>, text: string) {
    exists i :: 0 <= i < |es| && Text(es[i].key) == text
  }

  /** A new entry keeps the keys distinct if and only if its key is empty or no entry has it. */
  lemma OneMoreKey(es: seq<Entry>, free: nat, e: Entry)
    requires KeysDistinct(es) && free < |es| && Text(es[free].key) == ""
    ensures KeysDistinct(es[free := e]) <==> Text(e.key) == "" || !HasText(es, Text(e.key))
  {
    var es', text := es[free := e], Text(e.key);
    if text != "" && HasText(es, text) {
      var i :| 0 <= i < |es| && Text(es[i].key) == text;
      assert i != free && es'[i] == es[i] && es'[free] == e;
    } else {
      forall i, j | 0 <= i < j < |es'| && Text(es'[i].key) != "" ensures Text(es'[i].key) != Text(es'[j].key) {
        assert i != free ==> es'[i] == es[i];
        assert j != free ==> es'[j] == es[j];
      }
    }
  }

  lemma SameKeys(es: seq<Entry>, k: nat, e: Entry)
    requires KeysDistinct(es) && k < |es| && e.key == es[k].key
    ensures KeysDistinct(es[k := e])
  {
    var es' := es[k := e];
    assert forall i :: 0 <= i < |es| ==> es'[i].key == es[i].key;
  }

  lemma FreeHasNoText(es: seq<Entry>)
    requires HaveKeys(es)
    ensures FindFree(es, 0) < |es| ==> Text(es[FindFree(es, 0)].key) == ""
  {
    var free := FindFree(es, 0);
    assert free < |es| ==> es[free] in es && es[free].key[0] == NUL;
  }

  lemma KeyNotThere(es: seq<Entry>, key: string, keySize: nat, valueSize: nat)
    requires BuffersOk(es, keySize, valueSize) && NUL !in key && FindKey(es, key, 0) == |es|
    ensures !HasText(es, key)
  {
    FindKeyMeans(es, key, 0, keySize, valueSize);
  }

  /** What is stored of a key: nothing, the key, or as much of it as fits. */
  lemma StoredKey(key: string, keySize: nat)
    requires 0 < keySize && NUL !in key && key != ""
    ensures var text := Text(Stored(key, keySize));
      if |key| < keySize then text == key else text == key[..keySize - 1] && (text == "" <==> keySize == 1)
  {
    StoredText(key, keySize);
  }

  /** Setting a key keeps keys distinct if and only if the key fits its buffer, or there is no entry for it, or
      what is stored of it is nothing or is no entry's key yet. */
  lemma SetKeepsDistinct(es: seq<Entry>, key: string, value: string, keySize: nat, valueSize: nat)
    requires BuffersOk(es, keySize, valueSize) && 0 < keySize && 0 < valueSize && HaveKeys(es)
    requires KeysDistinct(es) && NUL !in key && key != ""
    ensures KeysDistinct(Set(es, key, value, keySize, valueSize))
      <==> |key| < keySize || FindFree(es, 0) == |es| || keySize == 1 || !HasText(es, key[..keySize - 1])
  {
    hide BuffersOk, HaveKeys, KeysDistinct, HasText, FindKey, FindFree, Text, Stored;
    StoredKey(key, keySize);
    FreeHasNoText(es);
    var k, free := FindKey(es, key, 0), FindFree(es, 0);
    if |key| >= keySize {
      LongKeyIsNeverFound(es, key, keySize, valueSize);
    }
    if k < |es| {
      SameKeys(es, k, es[k].(value := Stored(value, valueSize)));
    } else if free < |es| {
      KeyNotThere(es, key, keySize, valueSize);
      OneMoreKey(es, free, Entry(Stored(key, keySize), Stored(value, valueSize)));
    }
  }

  /** A key that is too long is not only lost: set twice, it takes two entries with the same text. */
  lemma LongKeyTwice(value: string)
    ensures var es := Set([Entry("\0\0", "\0"), Entry("\0\0", "\0")], "ab", value, 2, 1);
      var es' := Set(es, "ab", value, 2, 1);
      Lookup(es, "ab") == None && !KeysDistinct(es')
  {
    var none := Entry("\0\0", "\0");
    var one := Entry(Stored("ab", 2), Stored(value, 1));
    LongKeyIsNeverFound([none, none], "ab", 2, 1);
    var es := Set([none, none], "ab", value, 2, 1);
    assert es == [one, none];
    LongKeyIsNeverFound(es, "ab", 2, 1);
    var es' := Set(es, "ab", value, 2, 1);
    assert es' == [one, one] by {
      assert FindFree(es, 1) == 1;
    }
    assert Text(es'[0].key) == Text(es'[1].key) && Text(one.key) != "";
  }

  /** The empty key is not in the map, but looking it up finds any free entry. */
  lemma EmptyKeyFindsFree(es: seq<Entry>, keySize: nat, valueSize: nat)
    requires BuffersOk(es, keySize, valueSize) && HaveKeys(es)
    ensures Lookup(es, "").Some? <==> CountActive(es) < |es|
  {
    FindKeyMeans(es, "", 0, keySize, valueSize);
    FullOrFree(es);
  }

  /** One operation of a user: an absent value removes the key. */
  datatype Operation = Operation(key: string, value: Option<string>) {
    ghost predicate Proper(keySize: nat) {
      0 < |key| < keySize && NUL !in key && (value.Some? ==> NUL !in value.value)
    }
  }

  ghost function Run(es: seq<Entry>, ops: seq<Operation>, keySize: nat, valueSize: nat): (r: seq<Entry>)
    requires BuffersOk(es, keySize, valueSize) && 0 < keySize && 0 < valueSize
    ensures BuffersOk(r, keySize, valueSize)
  {
    if ops == [] then es
    else
      var before, op := Run(es, ops[..|ops| - 1], keySize, valueSize), ops[|ops| - 1];
      RemoveKeepsBuffers(before, op.key, keySize, valueSize);
      if op.value.None? then Remove(before, op.key) else Set(before, op.key, op.value.value, keySize, valueSize)
  }

  function RunOnMap(ops: seq<Operation>, numEntries: nat, valueSize: nat): map<string, string>
    requires 0 < valueSize
  {
    if ops == [] then map[]
    else
      var before, op := RunOnMap(ops[..|ops| - 1], numEntries, valueSize), ops[|ops| - 1];
      if op.value.None? then before - {op.key} else Put(before, op.key, op.value.value, numEntries, valueSize)
  }

  ghost function Blanks(numEntries: nat, keySize: nat, valueSize: nat): (es: seq<Entry>)
    requires 0 < keySize && 0 < valueSize
    ensures BuffersOk(es, keySize, valueSize) && |es| == numEntries
  {
    seq(numEntries, i => Entry(seq(keySize, k => NUL), seq(valueSize, k => NUL)))
  }

  lemma BlanksHold(numEntries: nat, keySize: nat, valueSize: nat)
    requires 0 < keySize && 0 < valueSize
    ensures KeysDistinct(Blanks(numEntries, keySize, valueSize))
    ensures Contents(Blanks(numEntries, keySize, valueSize)) == map[]
  {
    OneContents(Blanks(numEntries, keySize, valueSize), map[]);
  }

  /** Every run with proper keys leaves the entries that the map says, with no key twice. */
  lemma {:induction false} RunAgrees(ops: seq<Operation>, numEntries: nat, keySize: nat, valueSize: nat)
    requires 0 < keySize && 0 < valueSize && forall op :: op in ops ==> op.Proper(keySize)
    ensures var es := Run(Blanks(numEntries, keySize, valueSize), ops, keySize, valueSize);
      |es| == numEntries && KeysDistinct(es) && Contents(es) == RunOnMap(ops, numEntries, valueSize)
  {
    hide BuffersOk, KeysDistinct, Contents, Put, Set, Remove;
    var es0 := Blanks(numEntries, keySize, valueSize);
    if ops == [] {
      BlanksHold(numEntries, keySize, valueSize);
    } else {
      var before, op := Run(es0, ops[..|ops| - 1], keySize, valueSize), ops[|ops| - 1];
      RunAgrees(ops[..|ops| - 1], numEntries, keySize, valueSize);
      RemoveKeepsBuffers(before, op.key, keySize, valueSize);
      assert op in ops && op.Proper(keySize);
      if op.value.None? {
        RemoveAgrees(before, op.key, keySize, valueSize);
      } else {
        SetAgrees(before, op.key, op.value.value, keySize, valueSize);
      }
    }
  }

  /** The active entries from `i` on. */
  ghost function ActiveFrom(es: seq<Entry>, i: nat): (active: seq<Entry>)
    requires i <= |es| && HaveKeys(es)
    decreases |es| - i
  {
    if i == |es| then [] else (if es[i].IsActive() then [es[i]] else []) + ActiveFrom(es, i + 1)
  }

  ghost predicate ActiveIn(es: seq<Entry>, i: nat, e: Entry)
    requires HaveKeys(es)
  {
    exists j :: i <= j < |es| && es[j] == e && es[j].IsActive()
  }

  ghost predicate AllKeysDiffer(es: seq<Entry>) {
    forall i, j :: 0 <= i < j < |es| ==> Text(es[i].key) != Text(es[j].key)
  }

  lemma ActiveLater(es: seq<Entry>, i: nat, e: Entry)
    requires HaveKeys(es) && KeysDistinct(es) && i < |es| && ActiveIn(es, i + 1, e)
    ensures ActiveIn(es, i, e) && (es[i].IsActive() ==> Text(e.key) != Text(es[i].key))
  {
  }

  lemma {:induction false} ActiveFromMeans(es: seq<Entry>, i: nat)
    requires i <= |es| && HaveKeys(es) && KeysDistinct(es)
    ensures var active := ActiveFrom(es, i);
      && |active| + CountActive(es[..i]) == CountActive(es) && AllKeysDiffer(active)
      && forall e :: e in active ==> ActiveIn(es, i, e)
    decreases |es| - i
  {
    if i == |es| {
      assert es[..i] == es;
    } else {
      hide KeysDistinct;
      ActiveFromMeans(es, i + 1);
      assert es[..i + 1][..i] == es[..i];
      var later := ActiveFrom(es, i + 1);
      assert es[i].IsActive() ==> ActiveIn(es, i, es[i]);
      hide ActiveIn;
      forall e | e in later ensures ActiveIn(es, i, e) && (es[i].IsActive() ==> Text(e.key) != Text(es[i].key)) {
        ActiveLater(es, i, e);
      }
    }
  }

  /** Walking the active entries passes each key of the map once, with its value. */
  lemma ActiveAreContents(es: seq<Entry>)
    requires HaveKeys(es) && KeysDistinct(es)
    ensures var active := ActiveFrom(es, 0);
      |active| == |Contents(es)| && AllKeysDiffer(active) && forall e :: e in active ==> MapsTo(Contents(es), e)
  {
    ActiveFromMeans(es, 0);
    ContentsHold(es);
    forall e | e in ActiveFrom(es, 0) ensures MapsTo(Contents(es), e) {
      var j :| 0 <= j < |es| && es[j] == e && es[j].IsActive();
    }
  }

  class NonAllocatingMap {
    const keySize: nat
    const valueSize: nat
    const entries: array<Entry>

    ghost predicate Valid()
      reads this, entries
    {
      0 < keySize && 0 < valueSize && BuffersOk(entries[..], keySize, valueSize) && HaveKeys(entries[..])
    }

    constructor (keySize: nat, valueSize: nat, numEntries: nat)
      requires 0 < keySize && 0 < valueSize
      ensures Valid() && this.keySize == keySize && this.valueSize == valueSize && fresh(entries)
      ensures entries[..] == Blanks(numEntries, keySize, valueSize)
    {
      this.keySize, this.valueSize := keySize, valueSize;
      entries := new Entry[numEntries](i => Entry(seq(keySize, k => NUL), seq(valueSize, k => NUL)));
    }

    method GetEntryForKey(key: string) returns (i: nat)
      requires Valid() && NUL !in key
      ensures i == FindKey(entries[..], key, 0)
    {
      i := 0;
      while i < entries.Length
        invariant i <= entries.Length && FindKey(entries[..], key, i) == FindKey(entries[..], key, 0)
      {
        assert entries[..][i] == entries[i] && entries[i] in entries[..];
        if SameFirst(key + [NUL], entries[i].key, keySize) {
          return;
        }
        i := i + 1;
      }
    }

    method GetValueForKey(key: string) returns (value: Option<string>)
      requires Valid() && NUL !in key
      ensures value == Lookup(entries[..], key)
    {
      var i := GetEntryForKey(key);
      value := if i < entries.Length then Some(Text(entries[i].value)) else None;
    }

    method SetKeyValue(key: string, value: Option<string>)
      requires Valid() && NUL !in key && (value.Some? ==> NUL !in value.value)
      modifies entries
      ensures Valid()
      ensures entries[..] == if value.None? then Remove(old(entries[..]), key)
                             else Set(old(entries[..]), key, value.value, keySize, valueSize)
    {
      SetKeepsBuffers(entries[..], key, if value.None? then "" else value.value, keySize, valueSize);
      if value.None? {
        RemoveKey(key);
        return;
      }
      if key == "" {
        return;
      }
      var i := GetEntryForKey(key);
      if i == entries.Length {
        i := 0;
        while i < entries.Length && entries[i].IsActive()
          invariant i <= entries.Length && FindFree(entries[..], i) == FindFree(entries[..], 0)
        {
          i := i + 1;
        }
        if i == entries.Length {
          return;
        }
        entries[i] := entries[i].(key := Stored(key, keySize));
      }
      entries[i] := entries[i].(value := Stored(value.value, valueSize));
    }

    method RemoveKey(key: string)
      requires Valid() && NUL !in key
      modifies entries
      ensures Valid() && entries[..] == Remove(old(entries[..]), key)
    {
      RemoveKeepsBuffers(entries[..], key, keySize, valueSize);
      var i := GetEntryForKey(key);
      if i < entries.Length {
        entries[i] := Entry(entries[i].key[0 := NUL], entries[i].value[0 := NUL]);
      }
    }

    method GetCount() returns (count: nat)
      requires Valid()
      ensures count == CountActive(entries[..])
    {
      count := 0;
      for i := 0 to entries.Length
        invariant count == CountActive(entries[..i])
      {
        assert entries[..i + 1][..i] == entries[..i] && entries[i] in entries[..];
        if entries[i].IsActive() {
          count := count + 1;
        }
      }
      assert entries[..entries.Length] == entries[..];
    }
  }

  class Iterator {
    const map_: NonAllocatingMap
    var current: nat

    constructor (m: NonAllocatingMap)
      ensures map_ == m && current == 0
    {
      map_, current := m, 0;
    }

    /** The next active entry, or none at the end. */
    method Next() returns (entry: Option<Entry>)
      requires map_.Valid() && current <= map_.entries.Length
      modifies this
      ensures current <= map_.entries.Length
      ensures var left := ActiveFrom(map_.entries[..], old(current));
        if left == [] then entry == None && current == map_.entries.Length
        else entry == Some(left[0]) && ActiveFrom(map_.entries[..], current) == left[1..]
    {
      while current < map_.entries.Length
        invariant current <= map_.entries.Length
        invariant ActiveFrom(map_.entries[..], current) == ActiveFrom(map_.entries[..], old(current))
      {
        var e := map_.entries[current];
        assert e == map_.entries[..][current] && e in map_.entries[..];
        current := current + 1;
        if e.IsActive() {
          return Some(e);
        }
      }
      return None;
    }
  }
}
