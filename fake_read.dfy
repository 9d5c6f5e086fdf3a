/**
 * The configuration files are read through a wrapper whose `readline`
 * hides leading indentation from the INI parser. Only that line rule is
 * modelled; the file handle itself is not.
 */
module FakeRead {
  import opened Text

  /**
   * The line handed to the parser for a raw line: the raw line without
   * its leading whitespace when something else remains, else the raw
   * line unchanged (so blank lines and the end-of-file "" pass through).
   */
  function ReadLine(raw: string): (line: string)
    ensures |line| <= |raw| && line == raw[|raw| - |line|..]
    ensures AllSpace(raw) ==> line == raw
    ensures !AllSpace(raw) ==>
              line != [] && !IsSpace(line[0]) && AllSpace(raw[..|raw| - |line|])
  {
    LStripShape(raw);
    var stripped := LStrip(raw);
    if stripped != [] then stripped else raw
  }

  /** Reading a line that was already read changes nothing more. */
  lemma ReadLineIdempotent(raw: string)
    ensures ReadLine(ReadLine(raw)) == ReadLine(raw)
  {
    var line := ReadLine(raw);
    LStripShape(raw);
    LStripShape(line);
    if !AllSpace(raw) {
      assert line == LStrip(raw);
      assert LStrip(line) == line;
    }
  }
}
