/** Loading STABS debugging information, from its sections to functions with sizes. */
module DumpSymbols {
  import opened Addresses
  import opened Sorting
  import opened StabsEntries
  import opened StabsProtocol
  import opened SymbolModule
  import R = StabsReader
  import M = StabsToModule

  /** The functions that a section of entries reports. */
  ghost function Reports(stab: seq<Byte>, format: Format, bigEndian: bool): M.Gathered {
    M.Gather(format, Complete(format, START, Entries(stab, bigEndian, 4)).trace)
  }

  /** Any entries at all make a reader keep to the protocol. */
  lemma StabsConform(f: Format, es: seq<Entry>)
    ensures PlaceAfter(Complete(f, START, es).trace) == Nowhere
  {
    CompleteConforms(f, START, es);
  }

  method LoadStabs(stab: seq<Byte>, strings: string, bigEndian: bool) returns (ok: bool, finished: seq<Function>)
    requires Format(strings, true).Valid()
    ensures ok && M.NoOverlap(finished)
    ensures forall i, j :: 0 <= i < j < |finished| ==> finished[i].address <= finished[j].address
    ensures var g := Reports(stab, Format(strings, true), bigEndian); M.AllSized(g.kept, g.boundaries, finished)
  {
    hide M.NoOverlap, M.AllSized, M.Gather, Complete, Entries, PlaceAfter;
    var handler := new R.StabsHandler((trace: seq<Event>) => true);
    var reader := new R.StabsReader(stab, strings, bigEndian, 4, true, handler);
    ok := reader.Process();
    assert ok;
    StabsConform(Format(strings, true), Entries(stab, bigEndian, 4));
    var consumer := new M.StabsToModule(Format(strings, true));
    consumer.Hear(handler.trace);
    finished := consumer.Finalize();
  }
}
