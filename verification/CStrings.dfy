/** Strings that end at a NUL. */
module CStrings {
  const NUL: char := '\0'

  /** The characters before the first NUL. */
  function Text(buffer: seq<char>): (s: string)
    ensures |s| <= |buffer| && NUL !in s
    ensures s == buffer[..|s|] && (|s| < |buffer| ==> buffer[|s|] == NUL)
  {
    if buffer == [] || buffer[0] == NUL then [] else [buffer[0]] + Text(buffer[1..])
  }

  /** The text is what comes before the first NUL. */
  lemma {:induction false} TextUnique(buffer: seq<char>, s: string)
    requires NUL !in s && |s| < |buffer| && buffer[|s|] == NUL && s == buffer[..|s|]
    ensures Text(buffer) == s
  {
    if s != [] {
      assert buffer[0] == s[0];
      TextUnique(buffer[1..], s[1..]);
    }
  }
}
