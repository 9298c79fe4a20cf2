/** The parts of a symbol table that the DWARF and STABS readers fill in. */
module SymbolModule {
  import opened Addresses

  datatype Option<+T> = None | Some(value: T)

  /** A source line. `file` stands for the `File` object, which is unique per file name. */
  datatype Line = Line(address: Address, size: Address, file: string, number: int) {
    function Bytes(): Range {
      Range(address, size)
    }
  }

  class Function {
    const name: string
    const address: Address
    var size: Address
    var lines: seq<Line>

    constructor (name: string, address: Address)
      ensures this.name == name && this.address == address && size == 0 && lines == []
    {
      this.name, this.address, size, lines := name, address, 0, [];
    }

    function Bytes(): Range
      reads this`size
    {
      Range(address, size)
    }
  }

  ghost function LineRanges(lines: seq<Line>): (rs: seq<Range>)
    ensures |rs| == |lines| && forall i :: 0 <= i < |rs| ==> rs[i] == lines[i].Bytes()
  {
    seq(|lines|, i requires 0 <= i < |lines| => lines[i].Bytes())
  }

  ghost function FunctionRanges(fs: seq<Function>): (rs: seq<Range>)
    reads (set f | f in fs)`size
    ensures |rs| == |fs| && forall i :: 0 <= i < |rs| ==> rs[i] == fs[i].Bytes()
    decreases |fs|
  {
    if fs == [] then [] else FunctionRanges(fs[..|fs| - 1]) + [fs[|fs| - 1].Bytes()]
  }

  ghost predicate Distinct<T>(s: seq<T>) {
    forall i, j :: 0 <= i < j < |s| ==> s[i] != s[j]
  }

  lemma DistinctMeansOnce<T>(s: seq<T>)
    ensures Distinct(s) <==> forall x :: x in s ==> multiset(s)[x] == 1
  {
    if s != [] {
      var n := |s| - 1;
      assert s == s[..n] + [s[n]];
      DistinctMeansOnce(s[..n]);
      assert Distinct(s) <==> Distinct(s[..n]) && s[n] !in s[..n];
      assert multiset(s)[s[n]] == multiset(s[..n])[s[n]] + 1;
      assert forall x :: x in s[..n] ==> x in s;
      if s[n] !in s[..n] {
        assert forall x :: x in s[..n] ==> multiset(s)[x] == multiset(s[..n])[x];
      } else {
        assert multiset(s[..n])[s[n]] >= 1;
      }
    }
  }

  lemma DistinctPermutation<T>(s: seq<T>, t: seq<T>)
    requires Distinct(s) && multiset(s) == multiset(t)
    ensures Distinct(t)
  {
    DistinctMeansOnce(s);
    DistinctMeansOnce(t);
    forall x | x in t ensures x in s {
      assert x in multiset(t);
    }
  }

  lemma SameElements<T>(s: seq<T>, t: seq<T>)
    requires multiset(s) == multiset(t)
    ensures forall x :: x in s <==> x in t
  {
    forall x ensures x in s <==> x in t {
      assert x in s <==> x in multiset(s);
      assert x in t <==> x in multiset(t);
    }
  }
}
