/** The mathematics of sweeping functions and lines together: what the swept prefix of the address
    space determines, and how one step from transition to transition extends it. */
module SweepTheory {
  import opened Addresses
  import opened SymbolModule

  // ----- pieces of lines -----

  /** The non-empty intersections of `lines` with the bytes `lo..hi`, in the order of `lines`, each
      keeping its line's file and number. */
  ghost function Cut(lo: int, hi: int, lines: seq<Line>): seq<Line>
    requires 0 <= lo && hi <= TWO_64
    requires AllProper(LineRanges(lines))
  {
    if lines == [] then [] else
    var rest := lines[..|lines| - 1];
    assert LineRanges(lines)[..|rest|] == LineRanges(rest);
    var l := lines[|lines| - 1];
    assert LineRanges(lines)[|rest|].Proper();
    var a := Max(lo, l.address);
    var b := Min(hi, l.address + l.size);
    Cut(lo, hi, rest) + (if a < b then [l.(address := a, size := b - a)] else [])
  }

  predicate Inside(r: Range, a: int, b: int) {
    r.base <= a && b <= r.End()
  }

  /** No byte of `a..b` is in `r`. */
  predicate Apart(r: Range, a: int, b: int) {
    r.End() <= a || b <= r.base
  }

  lemma {:induction false} CutSame(lo: int, h1: int, h2: int, lines: seq<Line>)
    requires 0 <= lo && h1 <= h2 <= TWO_64 && AllProper(LineRanges(lines))
    requires h2 <= lo || forall i :: 0 <= i < |lines| ==> Apart(lines[i].Bytes(), h1, h2)
    ensures Cut(lo, h1, lines) == Cut(lo, h2, lines)
  {
    if lines != [] {
      var n := |lines| - 1;
      assert LineRanges(lines)[..n] == LineRanges(lines[..n]);
      assert LineRanges(lines)[n].Proper();
      assert h2 <= lo || Apart(lines[n].Bytes(), h1, h2);
      CutSame(lo, h1, h2, lines[..n]);
    }
  }

  lemma {:induction false} CutExtend(lo: int, h1: int, h2: int, lines: seq<Line>, j: nat)
    requires 0 <= lo <= h1 < h2 <= TWO_64 && AllProper(LineRanges(lines))
    requires j < |lines| && Inside(lines[j].Bytes(), h1, h2)
    requires lo == h1 || lines[j].address == h1
    requires forall i :: 0 <= i < j ==> Apart(lines[i].Bytes(), h1, h2)
    requires forall i :: j < i < |lines| ==> h2 <= lines[i].address
    ensures h2 - h1 < TWO_64 && h1 < TWO_64
    ensures Cut(lo, h2, lines) == Cut(lo, h1, lines) + [lines[j].(address := h1, size := h2 - h1)]
  {
    var n := |lines| - 1;
    assert LineRanges(lines)[..n] == LineRanges(lines[..n]);
    assert LineRanges(lines)[n].Proper() && LineRanges(lines)[j].Proper();
    if j == n {
      CutSame(lo, h1, h2, lines[..n]);
    } else {
      CutExtend(lo, h1, h2, lines[..n], j);
    }
  }

  /** `p` is all of line `l` that lies in `lo..hi`. */
  ghost predicate Meet(p: Line, l: Line, lo: int, hi: int) {
    && 0 < p.size && p.address == Max(lo, l.address) && p.address + p.size == Min(hi, l.address + l.size)
    && p.file == l.file && p.number == l.number
  }

  /** Every piece is the whole of some line's part of `lo..hi`. */
  lemma {:induction false} CutMeets(lo: int, hi: int, lines: seq<Line>, k: nat)
    requires 0 <= lo && hi <= TWO_64 && AllProper(LineRanges(lines)) && k < |Cut(lo, hi, lines)|
    ensures exists j :: 0 <= j < |lines| && Meet(Cut(lo, hi, lines)[k], lines[j], lo, hi)
  {
    var n := |lines| - 1;
    assert LineRanges(lines)[..n] == LineRanges(lines[..n]);
    assert LineRanges(lines)[n].Proper();
    var qs, p := Cut(lo, hi, lines[..n]), Cut(lo, hi, lines)[k];
    if k < |qs| {
      CutMeets(lo, hi, lines[..n], k);
      var j :| 0 <= j < n && Meet(qs[k], lines[..n][j], lo, hi);
      assert Meet(p, lines[j], lo, hi);
    } else {
      assert Meet(p, lines[n], lo, hi);
    }
  }

  lemma {:induction false} CutEndsBy(lo: int, hi: int, lines: seq<Line>, m: int)
    requires 0 <= lo && hi <= TWO_64 && AllProper(LineRanges(lines))
    requires forall j :: 0 <= j < |lines| ==> lines[j].address + lines[j].size <= m
    ensures forall k :: 0 <= k < |Cut(lo, hi, lines)| ==> Cut(lo, hi, lines)[k].Bytes().End() <= m
  {
    if lines != [] {
      var n := |lines| - 1;
      assert LineRanges(lines)[..n] == LineRanges(lines[..n]);
      CutEndsBy(lo, hi, lines[..n], m);
    }
  }

  lemma AllEndBy(lines: seq<Line>)
    requires Ladder(LineRanges(lines)) && lines != []
    ensures var n := |lines| - 1;
      Ladder(LineRanges(lines[..n])) && forall j :: 0 <= j < n ==> lines[..n][j].Bytes().End() <= lines[n].address
  {
    var n, ls := |lines| - 1, LineRanges(lines);
    assert ls[..n] == LineRanges(lines[..n]);
    forall j | 0 <= j < n ensures lines[..n][j].Bytes().End() <= lines[n].address {
      assert ls[j].End() <= ls[n].base;
    }
  }

  lemma LadderSnoc(ps: seq<Line>, p: Line)
    requires Ladder(LineRanges(ps)) && forall k :: 0 <= k < |ps| ==> ps[k].Bytes().End() <= p.address
    ensures Ladder(LineRanges(ps + [p]))
  {
    assert LineRanges(ps + [p]) == LineRanges(ps) + [p.Bytes()];
  }

  lemma {:induction false} CutAscends(lo: int, hi: int, lines: seq<Line>)
    requires 0 <= lo && hi <= TWO_64 && AllProper(LineRanges(lines)) && Ladder(LineRanges(lines))
    ensures Ladder(LineRanges(Cut(lo, hi, lines)))
  {
    hide Ladder;
    if lines == [] {
      LadderOfNone();
    } else {
      var n := |lines| - 1;
      assert LineRanges(lines)[..n] == LineRanges(lines[..n]);
      AllEndBy(lines);
      CutAscends(lo, hi, lines[..n]);
      CutEndsBy(lo, hi, lines[..n], lines[n].address);
      var qs, ps := Cut(lo, hi, lines[..n]), Cut(lo, hi, lines);
      if |qs| < |ps| {
        LadderSnoc(qs, ps[|qs|]);
        assert ps == qs + [ps[|qs|]];
      } else {
        assert ps == qs;
      }
    }
  }

  lemma LadderOfNone()
    ensures Ladder(LineRanges([]))
  {
  }

  /** Every line that meets `lo..hi` has its piece. */
  lemma {:induction false} CutMissesNone(lo: int, hi: int, lines: seq<Line>, j: nat)
    requires 0 <= lo < hi <= TWO_64 && AllProper(LineRanges(lines))
    requires j < |lines| && !Apart(lines[j].Bytes(), lo, hi)
    ensures exists k :: 0 <= k < |Cut(lo, hi, lines)| && Meet(Cut(lo, hi, lines)[k], lines[j], lo, hi)
  {
    var n := |lines| - 1;
    assert LineRanges(lines)[..n] == LineRanges(lines[..n]);
    assert LineRanges(lines)[n].Proper();
    var qs, ps := Cut(lo, hi, lines[..n]), Cut(lo, hi, lines);
    if j < n {
      CutMissesNone(lo, hi, lines[..n], j);
      var k :| 0 <= k < |qs| && Meet(qs[k], lines[..n][j], lo, hi);
      assert Meet(ps[k], lines[j], lo, hi);
    } else {
      assert Meet(ps[|qs|], lines[n], lo, hi);
    }
  }

  /** The pieces hold exactly the bytes of `lo..hi` that the lines hold. */
  lemma {:induction false} CutBytes(lo: int, hi: int, lines: seq<Line>, b: int)
    requires 0 <= lo && hi <= TWO_64 && AllProper(LineRanges(lines))
    ensures Covered(LineRanges(Cut(lo, hi, lines)), b) <==> lo <= b < hi && Covered(LineRanges(lines), b)
  {
    if lines != [] {
      var n := |lines| - 1;
      assert LineRanges(lines)[..n] == LineRanges(lines[..n]);
      assert LineRanges(lines)[n].Proper();
      CutBytes(lo, hi, lines[..n], b);
      CoveredSnoc(lines[..n], lines[n], b);
      assert lines[..n] + [lines[n]] == lines;
      var qs, ps := Cut(lo, hi, lines[..n]), Cut(lo, hi, lines);
      if |qs| < |ps| {
        assert ps == qs + [ps[|qs|]];
        CoveredSnoc(qs, ps[|qs|], b);
        assert ps[|qs|].Bytes().Has(b) <==> lo <= b < hi && lines[n].Bytes().Has(b);
      } else {
        assert ps == qs && !(lo <= b < hi && lines[n].Bytes().Has(b));
      }
    }
  }

  lemma CoveredSnoc(ls: seq<Line>, l: Line, b: int)
    ensures Covered(LineRanges(ls + [l]), b) <==> Covered(LineRanges(ls), b) || l.Bytes().Has(b)
  {
    var r, s := LineRanges(ls), LineRanges(ls + [l]);
    if i :| 0 <= i < |r| && r[i].Has(b) {
      assert s[i].Has(b);
    }
    assert s[|ls|] == l.Bytes();
    if i :| 0 <= i < |s| && s[i].Has(b) && i < |ls| {
      assert r[i].Has(b);
    }
  }

  /** `Cut` has one piece for each line that meets `lo..hi`, that piece is the whole of the meeting,
      and the pieces ascend and hold exactly the bytes of `lo..hi` that the lines hold. */
  lemma CutIsIntersection(lo: int, hi: int, lines: seq<Line>)
    requires 0 <= lo < hi <= TWO_64 && AllProper(LineRanges(lines)) && Ladder(LineRanges(lines))
    ensures var ps := Cut(lo, hi, lines);
      && Ladder(LineRanges(ps))
      && (forall k :: 0 <= k < |ps| ==> exists j :: 0 <= j < |lines| && Meet(ps[k], lines[j], lo, hi))
      && (forall j :: 0 <= j < |lines| && !Apart(lines[j].Bytes(), lo, hi) ==>
            exists k :: 0 <= k < |ps| && Meet(ps[k], lines[j], lo, hi))
      && (forall b :: Covered(LineRanges(ps), b) <==> lo <= b < hi && Covered(LineRanges(lines), b))
  {
    CutAscends(lo, hi, lines);
    forall k | 0 <= k < |Cut(lo, hi, lines)| { CutMeets(lo, hi, lines, k); }
    forall j | 0 <= j < |lines| && !Apart(lines[j].Bytes(), lo, hi) { CutMissesNone(lo, hi, lines, j); }
    forall b { CutBytes(lo, hi, lines, b); }
  }

  // ----- what holds even when functions or lines overlap -----

  /** `p` is part of line `l`. */
  ghost predicate PieceOf(p: Line, l: Line) {
    Inside(l.Bytes(), p.address, p.address + p.size) && p.file == l.file && p.number == l.number
  }

  /** The pieces ascend without overlap, end by `c`, and each lies in the function and in some line. */
  ghost predicate Sound(f: Range, lines: seq<Line>, pieces: seq<Line>, c: int) {
    && AllProper(LineRanges(pieces)) && Ladder(LineRanges(pieces))
    && forall k :: 0 <= k < |pieces| ==>
         && pieces[k].address + pieces[k].size <= c
         && Inside(f, pieces[k].address, pieces[k].address + pieces[k].size)
         && PieceOfSome(pieces[k], lines)
  }

  ghost predicate PieceOfSome(p: Line, lines: seq<Line>) {
    exists j :: 0 <= j < |lines| && PieceOf(p, lines[j])
  }

  lemma SoundStep(f: Range, lines: seq<Line>, pieces: seq<Line>, a: int, b: int, li: nat)
    requires Sound(f, lines, pieces, a) && 0 <= a < b <= TWO_64 && b - a < TWO_64
    requires li < |lines| && Inside(f, a, b) && Inside(lines[li].Bytes(), a, b)
    ensures Sound(f, lines, pieces + [lines[li].(address := a, size := b - a)], b)
  {
    var p := lines[li].(address := a, size := b - a);
    assert LineRanges(pieces + [p]) == LineRanges(pieces) + [p.Bytes()];
    assert PieceOf(p, lines[li]);
    forall i | 0 <= i < |pieces| ensures LineRanges(pieces)[i].End() <= a {
      assert LineRanges(pieces)[i] == pieces[i].Bytes();
    }
  }

  // ----- reports -----

  ghost predicate Ascending(s: seq<nat>) {
    forall i, j :: 0 <= i < j < |s| ==> s[i] < s[j]
  }

  /** Some byte of `r` below `c` is in none of `rs`. */
  ghost predicate Gap(r: Range, rs: seq<Range>, c: int) {
    exists b :: b < c && r.Has(b) && !Covered(rs, b)
  }

  /** Some byte of `r` below `c` is in one of `rs`. */
  ghost predicate Touch(r: Range, rs: seq<Range>, c: int) {
    exists b :: b < c && r.Has(b) && Covered(rs, b)
  }

  /** Byte `b` of line `l` is padding: functions use `l` before `b`, use none of it from `b` on, and
      one begins where `l` ends. */
  ghost predicate Padding(l: Range, fs: seq<Range>, b: int) {
    && Touch(l, fs, b)
    && (forall c :: b <= c < l.End() ==> !Covered(fs, c))
    && exists i :: 0 <= i < |fs| && fs[i].base == l.End()
  }

  /** Some byte of line `l` below `c` is in no function and is not padding. */
  ghost predicate Stray(l: Range, fs: seq<Range>, c: int) {
    exists b :: b < c && l.Has(b) && !Covered(fs, b) && !Padding(l, fs, b)
  }

  // ----- one iterator -----

  /** Iterator `k` into `rs` stands at the first range that holds or follows byte `c`. */
  ghost predicate Stands(rs: seq<Range>, k: nat, c: int) {
    && k <= |rs|
    && (forall i :: 0 <= i < k ==> rs[i].End() <= c)
    && (k < |rs| ==> c < rs[k].End())
  }

  /** The bytes `a..b` are alike as far as the range at iterator `k` is concerned. */
  predicate Uniform(rs: seq<Range>, k: nat, a: int, b: int)
    requires k <= |rs|
  {
    k == |rs| || b <= rs[k].base || Inside(rs[k], a, b)
  }

  predicate In(rs: seq<Range>, k: nat, a: int)
    requires k <= |rs|
  {
    k < |rs| && rs[k].base <= a
  }

  /** In a ladder, one range decides for all of them who holds a byte of `a..b`. */
  lemma WhoHolds(rs: seq<Range>, k: nat, a: int, b: int)
    requires Ladder(rs) && AllProper(rs) && Stands(rs, k, a) && a < b && Uniform(rs, k, a, b)
    ensures forall i :: 0 <= i < |rs| && !(i == k && In(rs, k, a)) ==> Apart(rs[i], a, b)
    ensures In(rs, k, a) ==> Inside(rs[k], a, b)
    ensures forall c :: a <= c < b ==> (Covered(rs, c) <==> In(rs, k, a))
  {
    forall i | 0 <= i < |rs| && !(i == k && In(rs, k, a)) ensures Apart(rs[i], a, b) {
      assert rs[i].Proper();
      if k < i { assert rs[k].End() <= rs[i].base && rs[k].Proper(); }
    }
    forall c | a <= c < b ensures Covered(rs, c) <==> In(rs, k, a) {
      if In(rs, k, a) { assert rs[k].Has(c); }
      if Covered(rs, c) {
        var i :| 0 <= i < |rs| && rs[i].Has(c);
        assert !Apart(rs[i], a, b);
      }
    }
  }

  // ----- what a swept prefix determines -----

  /** Each function's pieces are its intersections with the lines, as far as the sweep has come. */
  ghost predicate Exact(fs: seq<Range>, lines: seq<Line>, pieces: seq<seq<Line>>, c: int)
    requires c <= TWO_64 && AllProper(fs) && AllProper(LineRanges(lines))
  {
    && |pieces| == |fs|
    && forall i :: 0 <= i < |fs| ==>
         assert fs[i].Proper(); pieces[i] == Cut(fs[i].base, Min(fs[i].End(), c), lines)
  }

  /** A byte that both a function and a line hold is the first byte of one of them. */
  ghost predicate Transition(fs: seq<Range>, ls: seq<Range>, c: int) {
    forall i, j :: 0 <= i < |fs| && 0 <= j < |ls| && fs[i].Has(c) && ls[j].Has(c) ==>
      fs[i].base == c || ls[j].base == c
  }

  ghost predicate GapList(s: seq<nat>, fs: seq<Range>, ls: seq<Range>, c: int) {
    Ascending(s) && forall i: nat :: i in s <==> i < |fs| && Gap(fs[i], ls, c)
  }

  ghost predicate TouchList(s: seq<nat>, fs: seq<Range>, ls: seq<Range>, c: int) {
    Ascending(s) && forall j: nat :: j in s <==> j < |ls| && Touch(ls[j], fs, c)
  }

  ghost predicate StrayList(s: seq<nat>, fs: seq<Range>, ls: seq<Range>, c: int) {
    Ascending(s) && forall j: nat :: j in s <==> j < |ls| && Stray(ls[j], fs, c)
  }

  /** Append `k` unless the list already ends with it. */
  function Note(s: seq<nat>, k: nat): seq<nat> {
    if s != [] && s[|s| - 1] == k then s else s + [k]
  }

  /** The standing of both iterators at transition `a`, with `b` the next one. */
  ghost predicate Step(fs: seq<Range>, ls: seq<Range>, fi: nat, li: nat, a: int, b: int) {
    && AllProper(fs) && AllProper(ls)
    && Stands(fs, fi, a) && Stands(ls, li, a) && 0 <= a < b <= TWO_64
    && Uniform(fs, fi, a, b) && Uniform(ls, li, a, b)
    && (In(fs, fi, a) && In(ls, li, a) ==> b == fs[fi].End() || b == ls[li].End())
  }

  /** A stretch that only a line holds goes on to the line's end or to the next function. */
  ghost predicate Ends(fs: seq<Range>, ls: seq<Range>, fi: nat, li: nat, a: int, b: int)
    requires fi <= |fs| && li <= |ls|
  {
    In(ls, li, a) && !In(fs, fi, a) ==> b == ls[li].End() || (fi < |fs| && b == fs[fi].base)
  }

  lemma BothHold(fs: seq<Range>, lines: seq<Line>, fi: nat, li: nat, a: int, b: int)
    requires Step(fs, LineRanges(lines), fi, li, a, b) && Ladder(fs) && Ladder(LineRanges(lines))
    requires Transition(fs, LineRanges(lines), a) && In(fs, fi, a) && In(LineRanges(lines), li, a)
    ensures fs[fi].Proper() && b - a < TWO_64
    ensures Cut(fs[fi].base, b, lines)
         == Cut(fs[fi].base, a, lines) + [lines[li].(address := a, size := b - a)]
  {
    var ls := LineRanges(lines);
    WhoHolds(fs, fi, a, b);
    WhoHolds(ls, li, a, b);
    assert fs[fi].Proper() && fs[fi].Has(a) && ls[li].Has(a);
    assert forall j :: li < j < |ls| ==> ls[li].End() <= ls[j].base;
    CutExtend(fs[fi].base, a, b, lines, li);
  }

  lemma NotBothHold(fs: seq<Range>, lines: seq<Line>, fi: nat, li: nat, a: int, b: int, i: nat)
    requires Step(fs, LineRanges(lines), fi, li, a, b) && Ladder(fs) && Ladder(LineRanges(lines))
    requires i < |fs| && !(i == fi && In(fs, fi, a) && In(LineRanges(lines), li, a))
    ensures fs[i].Proper()
    ensures Cut(fs[i].base, Min(fs[i].End(), b), lines) == Cut(fs[i].base, Min(fs[i].End(), a), lines)
  {
    var ls := LineRanges(lines);
    WhoHolds(fs, fi, a, b);
    WhoHolds(ls, li, a, b);
    assert fs[i].Proper();
    if i == fi && In(fs, fi, a) {
      CutSame(fs[i].base, a, b, lines);
    } else {
      assert Apart(fs[i], a, b);
      if b <= fs[i].base { CutSame(fs[i].base, Min(fs[i].End(), a), Min(fs[i].End(), b), lines); }
    }
  }

  lemma ExactStep(fs: seq<Range>, lines: seq<Line>, fi: nat, li: nat, a: int, b: int, pieces: seq<seq<Line>>)
    requires Step(fs, LineRanges(lines), fi, li, a, b) && Ladder(fs) && Ladder(LineRanges(lines))
    requires Transition(fs, LineRanges(lines), a) && Exact(fs, lines, pieces, a)
    ensures var ls := LineRanges(lines);
      Exact(fs, lines,
            if In(fs, fi, a) && In(ls, li, a)
            then pieces[fi := pieces[fi] + [lines[li].(address := a, size := b - a)]] else pieces, b)
  {
    var both := In(fs, fi, a) && In(LineRanges(lines), li, a);
    if both { BothHold(fs, lines, fi, li, a, b); }
    forall i | 0 <= i < |fs| && !(i == fi && both) { NotBothHold(fs, lines, fi, li, a, b, i); }
  }

  lemma TransitionStep(fs: seq<Range>, ls: seq<Range>, fi: nat, li: nat, a: int, b: int)
    requires Step(fs, ls, fi, li, a, b) && Ladder(fs) && Ladder(ls)
    ensures Transition(fs, ls, b)
  {
    WhoHolds(fs, fi, a, b);
    WhoHolds(ls, li, a, b);
    forall i, j | 0 <= i < |fs| && 0 <= j < |ls| && fs[i].Has(b) && ls[j].Has(b)
      ensures fs[i].base == b || ls[j].base == b
    {
      assert fs[i].base != b ==> !Apart(fs[i], a, b);
      assert ls[j].base != b ==> !Apart(ls[j], a, b);
    }
  }

  lemma NoteAppends(s: seq<nat>, k: nat)
    requires Ascending(s) && forall i :: i in s ==> i <= k
    ensures Ascending(Note(s, k)) && forall i: nat :: i in Note(s, k) <==> i in s || i == k
  {
    if s != [] && s[|s| - 1] != k {
      assert s[|s| - 1] in s;
      assert forall i :: 0 <= i < |s| ==> s[i] <= s[|s| - 1];
    }
  }

  lemma GapStep(fs: seq<Range>, ls: seq<Range>, fi: nat, li: nat, a: int, b: int, s: seq<nat>)
    requires Step(fs, ls, fi, li, a, b) && Ladder(fs) && Ladder(ls) && GapList(s, fs, ls, a)
    ensures GapList(if In(fs, fi, a) && !In(ls, li, a) then Note(s, fi) else s, fs, ls, b)
  {
    WhoHolds(fs, fi, a, b);
    WhoHolds(ls, li, a, b);
    var cited := In(fs, fi, a) && !In(ls, li, a);
    forall i: nat | i < |fs| ensures Gap(fs[i], ls, b) <==> Gap(fs[i], ls, a) || (i == fi && cited) {
      if i == fi && cited {
        assert fs[fi].Has(a) && !Covered(ls, a);
      }
      if Gap(fs[i], ls, b) {
        var c :| c < b && fs[i].Has(c) && !Covered(ls, c);
        if c >= a { assert !Apart(fs[i], a, b); }
      }
    }
    if cited {
      forall i | i in s ensures i <= fi {
        assert fi < i ==> fs[fi].End() <= fs[i].base;
      }
      NoteAppends(s, fi);
    }
  }

  lemma TouchGrows(fs: seq<Range>, ls: seq<Range>, fi: nat, li: nat, a: int, b: int, j: nat)
    requires Step(fs, ls, fi, li, a, b) && Ladder(fs) && Ladder(ls) && j < |ls|
    ensures Touch(ls[j], fs, b) <==> Touch(ls[j], fs, a) || (j == li && In(fs, fi, a) && In(ls, li, a))
  {
    WhoHolds(fs, fi, a, b);
    WhoHolds(ls, li, a, b);
    if j == li && In(fs, fi, a) && In(ls, li, a) {
      assert ls[li].Has(a) && Covered(fs, a);
    }
    if Touch(ls[j], fs, b) {
      var c :| c < b && ls[j].Has(c) && Covered(fs, c);
      if c >= a { assert !Apart(ls[j], a, b); }
    }
  }

  lemma TouchedSoFar(fs: seq<Range>, ls: seq<Range>, fi: nat, li: nat, a: int, b: int, j: nat)
    requires Step(fs, ls, fi, li, a, b) && Ladder(ls) && j < |ls| && Touch(ls[j], fs, a)
    ensures j <= li
  {
    var c :| c < a && ls[j].Has(c) && Covered(fs, c);
    assert forall x :: 0 <= x < j ==> ls[x].End() <= ls[j].base;
  }

  lemma TouchStep(fs: seq<Range>, ls: seq<Range>, fi: nat, li: nat, a: int, b: int, s: seq<nat>)
    requires Step(fs, ls, fi, li, a, b) && Ladder(fs) && Ladder(ls) && TouchList(s, fs, ls, a)
    ensures TouchList(if In(fs, fi, a) && In(ls, li, a) then Note(s, li) else s, fs, ls, b)
    ensures In(ls, li, a) ==> (s != [] && s[|s| - 1] == li <==> Touch(ls[li], fs, a))
  {
    hide Touch, Ladder, Covered;
    var used := In(fs, fi, a) && In(ls, li, a);
    forall j: nat | j < |ls| ensures Touch(ls[j], fs, b) <==> Touch(ls[j], fs, a) || (j == li && used) {
      TouchGrows(fs, ls, fi, li, a, b, j);
    }
    forall j: nat | j < |ls| && Touch(ls[j], fs, a) ensures j <= li {
      TouchedSoFar(fs, ls, fi, li, a, b, j);
    }
    if used { NoteAppends(s, li); }
    if In(ls, li, a) && li in s {
      var k :| 0 <= k < |s| && s[k] == li;
      assert s[|s| - 1] in s && forall x :: 0 <= x < |s| - 1 ==> s[x] < s[|s| - 1];
    }
  }

  /** Over a stretch that a line holds and no function does, the code's test for padding is exact. */
  lemma PaddingTest(fs: seq<Range>, ls: seq<Range>, fi: nat, li: nat, a: int, b: int, c: int)
    requires Step(fs, ls, fi, li, a, b) && Ladder(fs) && Ladder(ls)
    requires In(ls, li, a) && !In(fs, fi, a) && a <= c < b
    requires b == ls[li].End() || (fi < |fs| && b == fs[fi].base)
    ensures Padding(ls[li], fs, c) <==>
            fi < |fs| && Touch(ls[li], fs, a) && fs[fi].base == ls[li].End()
  {
    var l := ls[li];
    WhoHolds(fs, fi, a, b);
    assert Touch(l, fs, c) <==> Touch(l, fs, a);
    if Padding(l, fs, c) {
      var i :| 0 <= i < |fs| && fs[i].base == l.End();
      assert fs[i].Proper();
      assert i >= fi;
      assert fi < i ==> fs[fi].End() <= fs[i].base;
      assert fs[fi].Proper() && fs[fi].Has(fs[fi].base) && Covered(fs, fs[fi].base);
    }
  }

  lemma StrayStep(fs: seq<Range>, ls: seq<Range>, fi: nat, li: nat, a: int, b: int, s: seq<nat>)
    requires Step(fs, ls, fi, li, a, b) && Ladder(fs) && Ladder(ls) && StrayList(s, fs, ls, a)
    requires Ends(fs, ls, fi, li, a, b)
    ensures var excused := fi < |fs| && In(ls, li, a) && Touch(ls[li], fs, a) && fs[fi].base == ls[li].End();
      StrayList(if In(ls, li, a) && !In(fs, fi, a) && !excused then Note(s, li) else s, fs, ls, b)
  {
    WhoHolds(fs, fi, a, b);
    WhoHolds(ls, li, a, b);
    var alone := In(ls, li, a) && !In(fs, fi, a);
    if alone {
      forall c | a <= c < b { PaddingTest(fs, ls, fi, li, a, b, c); }
    }
    var cited := alone && !(fi < |fs| && Touch(ls[li], fs, a) && fs[fi].base == ls[li].End());
    forall j: nat | j < |ls| ensures Stray(ls[j], fs, b) <==> Stray(ls[j], fs, a) || (j == li && cited) {
      if j == li && cited {
        assert ls[li].Has(a) && !Covered(fs, a) && !Padding(ls[li], fs, a);
      }
      if Stray(ls[j], fs, b) {
        var c :| c < b && ls[j].Has(c) && !Covered(fs, c) && !Padding(ls[j], fs, c);
        if c >= a { assert !Apart(ls[j], a, b); }
      }
    }
    if cited {
      assert forall j :: li < j < |ls| ==> ls[li].End() <= ls[j].base;
      assert forall j :: j in s ==> j <= li;
      NoteAppends(s, li);
    }
  }

  // ----- all of it together -----

  function Last(s: seq<nat>): Option<nat> {
    if s == [] then None else Some(s[|s| - 1])
  }

  /** The record of a sweep: each function's pieces so far, and the positions of the lines used, the
      functions reported and the lines reported, each in the order it happened. */
  datatype Record = Record(pieces: seq<seq<Line>>, used: seq<nat>, gaps: seq<nat>, strays: seq<nat>)

  /** What the stretch `a..b` adds to the record. */
  ghost function Extend(r: Record, fs: seq<Range>, lines: seq<Line>, fi: nat, li: nat, a: int, b: int): Record
    requires fi <= |fs| == |r.pieces| && li <= |lines|
    requires In(LineRanges(lines), li, a) ==> 0 <= a < TWO_64 && 0 <= b - a < TWO_64
  {
    var f, l := In(fs, fi, a), In(LineRanges(lines), li, a);
    var excused := l && fi < |fs| && Last(r.used) == Some(li) && fs[fi].base == lines[li].Bytes().End();
    Record(
      if f && l then r.pieces[fi := r.pieces[fi] + [lines[li].(address := a, size := b - a)]] else r.pieces,
      if f && l then Note(r.used, li) else r.used,
      if f && !l then Note(r.gaps, fi) else r.gaps,
      if l && !f && !excused then Note(r.strays, li) else r.strays)
  }

  /** Everything the sweep of disjoint functions and lines has settled about the bytes below `c`. */
  ghost predicate Swept(fs: seq<Range>, lines: seq<Line>, r: Record, c: int) {
    var ls := LineRanges(lines);
    && c <= TWO_64 && AllProper(fs) && AllProper(ls)
    && Exact(fs, lines, r.pieces, c) && Transition(fs, ls, c)
    && TouchList(r.used, fs, ls, c) && GapList(r.gaps, fs, ls, c) && StrayList(r.strays, fs, ls, c)
  }

  lemma SweptStart(fs: seq<Range>, lines: seq<Line>, pieces: seq<seq<Line>>, c: int)
    requires c <= TWO_64 && AllProper(fs) && AllProper(LineRanges(lines))
    requires |pieces| == |fs| && forall i :: 0 <= i < |fs| ==> pieces[i] == [] && c <= fs[i].base
    requires forall j :: 0 <= j < |lines| ==> c <= lines[j].address
    ensures Swept(fs, lines, Record(pieces, [], [], []), c)
  {
    forall i | 0 <= i < |fs| ensures fs[i].Proper() && Cut(fs[i].base, Min(fs[i].End(), c), lines) == [] {
      assert fs[i].Proper();
      CutNothing(fs[i].base, c, lines);
    }
  }

  lemma {:induction false} CutNothing(lo: int, hi: int, lines: seq<Line>)
    requires 0 <= lo && hi <= TWO_64 && AllProper(LineRanges(lines)) && hi <= lo
    ensures Cut(lo, hi, lines) == []
  {
    if lines != [] {
      assert LineRanges(lines)[..|lines| - 1] == LineRanges(lines[..|lines| - 1]);
      CutNothing(lo, hi, lines[..|lines| - 1]);
    }
  }

  lemma SweptStep(fs: seq<Range>, lines: seq<Line>, r: Record, fi: nat, li: nat, a: int, b: int)
    requires Swept(fs, lines, r, a)
    requires Step(fs, LineRanges(lines), fi, li, a, b) && Ladder(fs) && Ladder(LineRanges(lines))
    requires In(LineRanges(lines), li, a) ==> b - a < TWO_64
    requires Ends(fs, LineRanges(lines), fi, li, a, b)
    ensures Swept(fs, lines, Extend(r, fs, lines, fi, li, a, b), b)
  {
    hide Transition, TouchList, GapList, StrayList, Touch, Ladder;
    var ls := LineRanges(lines);
    var f, l := In(fs, fi, a), In(ls, li, a);
    var e := Extend(r, fs, lines, fi, li, a, b);
    assert Exact(fs, lines, e.pieces, b) by { ExactStep(fs, lines, fi, li, a, b, r.pieces); }
    assert Transition(fs, ls, b) by { TransitionStep(fs, ls, fi, li, a, b); }
    assert TouchList(e.used, fs, ls, b) && (l ==> (Last(r.used) == Some(li) <==> Touch(ls[li], fs, a))) by {
      TouchStep(fs, ls, fi, li, a, b, r.used);
    }
    assert GapList(e.gaps, fs, ls, b) by { GapStep(fs, ls, fi, li, a, b, r.gaps); }
    assert StrayList(e.strays, fs, ls, b) by { StrayStep(fs, ls, fi, li, a, b, r.strays); }
  }

  /** Once every function and line has ended there is nothing left to settle. */
  lemma SweptEnd(fs: seq<Range>, lines: seq<Line>, r: Record, c: int)
    requires Swept(fs, lines, r, c)
    requires forall i :: 0 <= i < |fs| ==> fs[i].End() <= c
    requires forall j :: 0 <= j < |lines| ==> LineRanges(lines)[j].End() <= c
    ensures Swept(fs, lines, r, TWO_64)
  {
    var ls := LineRanges(lines);
    forall i | 0 <= i < |fs| ensures fs[i].Proper() && Min(fs[i].End(), c) == Min(fs[i].End(), TWO_64) {
      assert fs[i].Proper();
    }
    forall i | 0 <= i < |fs| ensures Gap(fs[i], ls, c) <==> Gap(fs[i], ls, TWO_64) {
      assert fs[i].Proper();
    }
    forall j | 0 <= j < |ls|
      ensures Touch(ls[j], fs, c) <==> Touch(ls[j], fs, TWO_64)
      ensures Stray(ls[j], fs, c) <==> Stray(ls[j], fs, TWO_64)
    {
      assert ls[j].Proper();
    }
  }

  ghost predicate AllSound(fs: seq<Range>, lines: seq<Line>, pieces: seq<seq<Line>>, c: int) {
    |pieces| == |fs| && forall i :: 0 <= i < |fs| ==> Sound(fs[i], lines, pieces[i], c)
  }

  lemma AllSoundStep(fs: seq<Range>, lines: seq<Line>, r: Record, fi: nat, li: nat, a: int, b: int)
    requires AllSound(fs, lines, r.pieces, a) && Step(fs, LineRanges(lines), fi, li, a, b)
    requires In(LineRanges(lines), li, a) ==> b - a < TWO_64
    ensures AllSound(fs, lines, Extend(r, fs, lines, fi, li, a, b).pieces, b)
  {
    if In(fs, fi, a) && In(LineRanges(lines), li, a) { SoundStep(fs[fi], lines, r.pieces[fi], a, b, li); }
  }

  /** What holds of the record when everything below `c` has been swept: soundness always, and
      exactness when the functions are disjoint and the lines are. */
  ghost predicate Holds(fs: seq<Range>, lines: seq<Line>, disjoint: bool, r: Record, c: int) {
    && AllSound(fs, lines, r.pieces, c)
    && (disjoint ==> Ladder(fs) && Ladder(LineRanges(lines)) && Swept(fs, lines, r, c))
  }

  lemma HoldsStep(fs: seq<Range>, lines: seq<Line>, disjoint: bool, r: Record, fi: nat, li: nat, a: int, b: int)
    requires Holds(fs, lines, disjoint, r, a) && Step(fs, LineRanges(lines), fi, li, a, b)
    requires Ends(fs, LineRanges(lines), fi, li, a, b)
    ensures In(LineRanges(lines), li, a) ==> b - a < TWO_64
    ensures Holds(fs, lines, disjoint, Extend(r, fs, lines, fi, li, a, b), b)
  {
    assert In(LineRanges(lines), li, a) ==> LineRanges(lines)[li].Proper();
    AllSoundStep(fs, lines, r, fi, li, a, b);
    if disjoint { SweptStep(fs, lines, r, fi, li, a, b); }
  }

  lemma SoundLater(f: Range, lines: seq<Line>, pieces: seq<Line>, c: int, d: int)
    requires Sound(f, lines, pieces, c) && c <= d
    ensures Sound(f, lines, pieces, d)
  {
  }

  lemma AllSoundLater(fs: seq<Range>, lines: seq<Line>, pieces: seq<seq<Line>>, c: int, d: int)
    requires AllSound(fs, lines, pieces, c) && c <= d
    ensures AllSound(fs, lines, pieces, d)
  {
    forall i | 0 <= i < |fs| ensures Sound(fs[i], lines, pieces[i], d) {
      SoundLater(fs[i], lines, pieces[i], c, d);
    }
  }

  lemma HoldsEnd(fs: seq<Range>, lines: seq<Line>, disjoint: bool, r: Record, c: int)
    requires Holds(fs, lines, disjoint, r, c) && c <= TWO_64
    requires c < TWO_64 ==> Stands(fs, |fs|, c) && Stands(LineRanges(lines), |lines|, c)
    ensures Holds(fs, lines, disjoint, r, TWO_64)
  {
    AllSoundLater(fs, lines, r.pieces, c, TWO_64);
    hide AllSound, Swept;
    if disjoint && c < TWO_64 { SweptEnd(fs, lines, r, c); }
  }

  lemma HoldsStart(fs: seq<Range>, lines: seq<Line>, disjoint: bool, pieces: seq<seq<Line>>, c: int)
    requires c <= TWO_64 && AllProper(fs) && AllProper(LineRanges(lines))
    requires disjoint ==> Ladder(fs) && Ladder(LineRanges(lines))
    requires |pieces| == |fs| && forall i :: 0 <= i < |fs| ==> pieces[i] == [] && c <= fs[i].base
    requires forall j :: 0 <= j < |lines| ==> c <= lines[j].address
    ensures Holds(fs, lines, disjoint, Record(pieces, [], [], []), c)
  {
    SweptStart(fs, lines, pieces, c);
  }

  /** Some byte of `r` is in none of `rs`. */
  ghost predicate Uncovered(r: Range, rs: seq<Range>) {
    exists b :: r.Has(b) && !Covered(rs, b)
  }

  /** Some byte of line `l` is in no function and is not padding. */
  ghost predicate UncoveredLine(l: Range, fs: seq<Range>) {
    exists b :: l.Has(b) && !Covered(fs, b) && !Padding(l, fs, b)
  }

  lemma GapAtEnd(r: Range, rs: seq<Range>)
    requires r.Proper()
    ensures Gap(r, rs, TWO_64) <==> Uncovered(r, rs)
  {
    assert forall b :: r.Has(b) ==> b < TWO_64;
  }

  lemma StrayAtEnd(l: Range, fs: seq<Range>)
    requires l.Proper()
    ensures Stray(l, fs, TWO_64) <==> UncoveredLine(l, fs)
  {
    hide Padding, Covered;
    assert forall b :: l.Has(b) ==> b < TWO_64;
  }

  lemma ProperAt(rs: seq<Range>, i: nat)
    requires AllProper(rs) && i < |rs|
    ensures rs[i].Proper()
  {
  }

  lemma ExactAtEnd(fs: seq<Range>, lines: seq<Line>, pieces: seq<seq<Line>>, i: nat)
    requires AllProper(fs) && AllProper(LineRanges(lines)) && Exact(fs, lines, pieces, TWO_64) && i < |fs|
    ensures fs[i].Proper() && |pieces| == |fs| && pieces[i] == Cut(fs[i].base, fs[i].End(), lines)
  {
    assert fs[i].Proper() && Min(fs[i].End(), TWO_64) == fs[i].End();
  }

  /** The outcome of a whole sweep for a function, read off byte by byte: its pieces are its intersections
      with the lines, and it is reported, once, exactly when it has a byte no line covers. */
  lemma SweepOutcome(fs: seq<Range>, lines: seq<Line>, r: Record, i: nat)
    requires Holds(fs, lines, true, r, TWO_64) && i < |fs|
    ensures fs[i].Proper() && AllProper(LineRanges(lines)) && r.pieces[i] == Cut(fs[i].base, fs[i].End(), lines)
    ensures forall b :: Covered(LineRanges(r.pieces[i]), b) <==> fs[i].Has(b) && Covered(LineRanges(lines), b)
    ensures Ascending(r.gaps) && (i in r.gaps <==> Uncovered(fs[i], LineRanges(lines)))
  {
    hide AllProper, Ladder, AllSound, Transition, Exact, Ascending, Gap, Covered, Cut, TouchList, StrayList, Uncovered;
    ExactAtEnd(fs, lines, r.pieces, i);
    CutIsIntersection(fs[i].base, fs[i].End(), lines);
    GapAtEnd(fs[i], LineRanges(lines));
  }

  /** Nothing but functions is reported as a function, and a line is reported, once, exactly when it has a
      byte outside all functions that is not padding. */
  lemma SweepReports(fs: seq<Range>, lines: seq<Line>, r: Record)
    requires Holds(fs, lines, true, r, TWO_64)
    ensures forall i: nat :: i in r.gaps ==> i < |fs|
    ensures Ascending(r.strays)
    ensures forall j: nat :: j in r.strays <==> j < |lines| && UncoveredLine(lines[j].Bytes(), fs)
  {
    hide AllProper, Ladder, AllSound, Transition, Exact, Ascending, Gap, Stray, Covered, TouchList, UncoveredLine;
    var ls := LineRanges(lines);
    forall j: nat | j < |lines| ensures Stray(ls[j], fs, TWO_64) <==> UncoveredLine(lines[j].Bytes(), fs) {
      ProperAt(ls, j);
      StrayAtEnd(ls[j], fs);
    }
  }
}
