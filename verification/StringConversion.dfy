/** String conversions built on the converters. */
module StringConversion {
  import opened BufferConversion
  import opened Unicode
  import opened UtfSteps
  import opened ConvertUtf

  /** The bytes of the character at the head of the string, if there is a whole and legal one among the
      first `limit` bytes. */
  function FirstCharacter(s: seq<Utf8>, limit: int): nat
    requires s != []
  {
    var n := Trailing(s[0]) + 1;
    if n <= limit <= |s| && IsLegal(s[..n]) then n else 0
  }

  function Padded(units: seq<Utf16>): (padded: seq<Utf16>)
    requires |units| <= 2
    ensures |padded| == 2 && padded[..|units|] == units && forall i :: |units| <= i < 2 ==> padded[i] == 0
  {
    if |units| == 0 then [0, 0] else if |units| == 1 then units + [0] else units
  }

  /** On a window of `w` bytes the converter takes the first character if the window is just that,
      and otherwise, up to there, takes nothing. */
  lemma Window(s: seq<Utf8>, w: nat)
    requires 0 < w <= |s| && FirstCharacter(s, w - 1) == 0
    ensures Steps(From8To16(true))
    ensures var r := Run(From8To16(true), s[..w], 2, ConversionOk);
      if FirstCharacter(s, w) > 0
      then r == Ran(w, Encode16(Head8(s[..w]).ch), ConversionOk) && FirstCharacter(s, w) == w
           && Value(s[..w]) == Head8(s[..w]).ch
      else r.used == 0 && r.out == [] && r.result != ConversionOk
  {
    AllStep(true);
    var n := Trailing(s[0]) + 1;
    assert n <= w ==> s[..w][..n] == s[..n];
    assert s[..w][w..] == [];
  }

  /** `UTF8ToUTF16Char`: the window onto the source grows a byte at a time until it holds a character. */
  method Utf8ToUtf16Char(s: seq<Utf8>, inLength: int, out: array<Utf16>) returns (n: nat)
    requires s != [] && inLength <= |s| && out.Length == 2
    modifies out
    ensures n == FirstCharacter(s, if inLength < 1 then 1 else inLength)
    ensures n > 0 <==>
      Trailing(s[0]) < (if inLength < 1 then 1 else inLength) && IsLegal(s[..Trailing(s[0]) + 1])
    ensures n > 0 ==> IsLegal(s[..n]) && n == Trailing(s[0]) + 1 && out[..] == Padded(Encode16(Value(s[..n])))
    ensures n == 0 ==> out[..] == [0, 0]
  {
    hide Steps, Run, Head8, Value, Encode16, Gather, Trailing;
    var sourceEnd, t: nat := 1, 0;
    out[0], out[1] := 0, 0;
    while true
      invariant 0 < sourceEnd <= |s| && (sourceEnd <= inLength || sourceEnd == 1)
      invariant t == 0 && out[..] == [0, 0] && FirstCharacter(s, sourceEnd - 1) == 0
      decreases |s| - sourceEnd
    {
      var result, p;
      Window(s, sourceEnd);
      ghost var was := out[..];
      assert s[0..sourceEnd] == s[..sourceEnd];
      result, p, t := ConvertUtf8ToUtf16(s, 0, sourceEnd, out, t, 2, true);
      if result == ConversionOk {
        return p;
      }
      assert out[..] == was;
      // Let the converter see one byte more.
      sourceEnd := sourceEnd + 1;
      if sourceEnd > inLength {
        break;
      }
    }
    n := 0;
  }

  /** `UTF8ToUTF16`: the converted text and a terminator, or nothing if the text is not legal. The vector has
      as many units as the text has bytes; the limit given to the converter lies far behind it, since it
      takes the vector's capacity for units where it is multiplied by the size of one. `memory` is all up to
      that limit: the converter never gets past the vector. */
  method Utf8ToUtf16(s: seq<Utf8>, capacity: nat) returns (out: seq<Utf16>)
    requires |s| <= capacity
    ensures Steps(From8To32(true))
    ensures var r := Run(From8To32(true), s, |s|, ConversionOk);
      && Scalars(r.out)
      && out == if r.result == ConversionOk then EncodeAll16(r.out) + [0] else []
  {
    hide Run, Steps;
    var limit := capacity * 2;
    var memory := new Utf16[limit](_ => 0);
    ghost var before := memory[..];
    assert s[0..|s|] == s;
    StraightOrThroughUtf32(s, true, limit, |s|);
    RunBounds(From8To32(true), s, |s|, ConversionOk);
    var result, _, t := ConvertUtf8ToUtf16(s, 0, |s|, memory, 0, limit, true);
    assert t <= |s| && memory[|s|..] == before[|s|..];
    out := if result == ConversionOk then memory[..t] + [0] else [];
  }
}
