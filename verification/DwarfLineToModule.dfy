/** Turning the rows of a DWARF line program into source lines. */
module DwarfLineToModule {
  import opened Addresses
  import opened DwarfCuToModule
  import opened SymbolModule

  /** A row of the line program. */
  datatype Row = Row(address: Address, length: Address, fileNumber: int, lineNumber: int)

  /** Bytes past the end of the address space are clipped off. */
  function Clip(address: Address, length: Address): Address {
    if Plus(address, length) < address then Minus(0, address) else length
  }

  /** What a row does: `end` is the end of the line just omitted, or zero. */
  function Feed(row: Row, end: Address, files: map<int, string>): (r: (Option<Line>, Address)) {
    var length := Clip(row.address, row.length);
    if row.length == 0 then (None, end)
    else if row.address == 0 || row.address == end then (None, Plus(row.address, length))
    else if row.fileNumber !in files then (None, 0)
    else (Some(Line(row.address, length, files[row.fileNumber], row.lineNumber)), 0)
  }

  function FeedAll(rows: seq<Row>, end: Address, files: map<int, string>): (seq<Line>, Address) {
    if rows == [] then ([], end) else
    var (lines, e) := FeedAll(rows[..|rows| - 1], end, files);
    var (line, e') := Feed(rows[|rows| - 1], e, files);
    (if line.Some? then lines + [line.value] else lines, e')
  }

  /** The lines of a program are non-empty, start above zero and stay inside the address space. */
  lemma {:induction false} LinesAreProper(rows: seq<Row>, end: Address, files: map<int, string>)
    ensures forall l :: l in FeedAll(rows, end, files).0 ==> l.address != 0 && l.Bytes().Proper()
  {
    if rows != [] {
      LinesAreProper(rows[..|rows| - 1], end, files);
    }
  }

  /** Exactly the rows are kept that have bytes, are not at zero, do not continue omitted code and have a known
      file; each is cut off at 2^64. Omitted code goes on to the end of its row, and any other row with bytes ends
      it. */
  lemma KeptExactly(rows: seq<Row>, row: Row, end: Address, files: map<int, string>)
    ensures var (lines, e) := FeedAll(rows, end, files);
      var (lines', e') := FeedAll(rows + [row], end, files);
      if row.length == 0 then lines' == lines && e' == e
      else if row.address == 0 || row.address == e then
        lines' == lines && e' == Min(row.address + row.length, TWO_64) % TWO_64
      else if row.fileNumber !in files then lines' == lines && e' == 0
      else
        && e' == 0
        && lines' == lines
             + [Line(row.address, Min(row.length, TWO_64 - row.address), files[row.fileNumber], row.lineNumber)]
  {
    assert (rows + [row])[..|rows|] == rows;
  }

  /** Each row starts where the one before it ends, and no row reaches the end of the address space. */
  ghost predicate Contiguous(rows: seq<Row>) {
    && (forall i :: 0 <= i < |rows| ==> rows[i].address + rows[i].length < TWO_64)
    && forall i :: 0 < i < |rows| ==> rows[i].address == rows[i - 1].address + rows[i - 1].length
  }

  /** A run of rows for code that was dropped, whose addresses count up from zero, leaves no line. */
  lemma {:induction false} DroppedRunLeavesNothing(rows: seq<Row>, end: Address, files: map<int, string>)
    requires rows != [] && Contiguous(rows) && rows[0].address == 0 && rows[0].length > 0
    ensures FeedAll(rows, end, files) ==
      ([], rows[|rows| - 1].address + rows[|rows| - 1].length)
  {
    var n := |rows| - 1;
    if n == 0 {
      assert FeedAll(rows[..0], end, files) == ([], end);
    } else {
      DroppedRunLeavesNothing(rows[..n], end, files);
    }
  }

  /** The run after a dropped run is kept from its first row that does not continue the dropped code. */
  lemma RunAfterGapIsKept(rows: seq<Row>, row: Row, end: Address, files: map<int, string>)
    requires row.length > 0 && row.address != 0 && row.fileNumber in files
    requires row.address != FeedAll(rows, end, files).1
    ensures FeedAll(rows + [row], end, files) ==
      (FeedAll(rows, end, files).0
       + [Line(row.address, Min(row.length, TWO_64 - row.address), files[row.fileNumber], row.lineNumber)], 0)
  {
    assert (rows + [row])[..|rows|] == rows;
  }

  class LineHandler {
    var files: map<int, string>
    var omittedLineEnd: Address
    var warnedBadFileNumber: bool
    const cu: DwarfCUToModule

    constructor (cu: DwarfCUToModule)
      ensures files == map[] && omittedLineEnd == 0 && !warnedBadFileNumber && this.cu == cu
    {
      this.cu, files, omittedLineEnd, warnedBadFileNumber := cu, map[], 0, false;
    }

    method AddLine(address: Address, length: Address, fileNumber: int, lineNumber: int)
      requires cu.Valid()
      modifies this, cu`lines
      ensures cu.Valid() && files == old(files)
      ensures var (line, end) := Feed(Row(address, length, fileNumber, lineNumber), old(omittedLineEnd), old(files));
        && omittedLineEnd == end
        && cu.lines == old(cu.lines) + if line.Some? then [line.value] else []
      ensures warnedBadFileNumber <==>
        old(warnedBadFileNumber)
        || (length != 0 && address != 0 && address != old(omittedLineEnd) && fileNumber !in old(files))
    {
      if length == 0 {
        return;
      }
      // A line that would wrap ends at 2^64.
      var size := length;
      if Plus(address, length) < address {
        size := Minus(0, address);
      }
      // It is dropped code, or goes on behind it.
      if address == 0 || address == omittedLineEnd {
        omittedLineEnd := Plus(address, size);
        return;
      } else {
        omittedLineEnd := 0;
      }
      // Without a file there is no line.
      if fileNumber !in files {
        warnedBadFileNumber := true;
        return;
      }
      var line := Line(address, size, files[fileNumber], lineNumber);
      cu.lines := cu.lines + [line];
    }
  }
}
