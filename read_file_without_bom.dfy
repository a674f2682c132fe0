/**
 * The text step of `readFileWithoutBom` in src/readFileWithoutBom.ts: once
 * the file has been read and turned into a string, a leading byte order mark
 * is dropped.
 */
module ReadFileWithoutBom {

  /** `BOM_HEX`: the byte order mark U+FEFF. */
  const BOM: char := 0xFEFF as char

  /**
   * Drops the first character when it is the mark.  The text is the result with at most one mark in front of it, and a mark
   * was dropped exactly when the text began with one.
   */
  function StripBom(contents: string): (r: string)
    ensures |r| < |contents| <==> |contents| > 0 && contents[0] == BOM
    ensures contents == (if |r| < |contents| then [BOM] else []) + r
  {
    if |contents| > 0 && contents[0] == BOM then contents[1..] else contents
  }

  /** The result is a suffix of the text, at most one character shorter. */
  lemma StripBomIsShortSuffix(contents: string)
    ensures var r := StripBom(contents);
      |contents| - 1 <= |r| <= |contents| && r == contents[|contents| - |r|..]
  {
    var r := StripBom(contents);
    if |r| < |contents| {
      assert contents == [BOM] + r;
    }
  }

  /** Putting a mark in front and stripping it gives the text back; only that one mark goes. */
  lemma StripBomUndoesOneMark(text: string)
    ensures StripBom([BOM] + text) == text
    ensures StripBom([BOM, BOM] + text) == [BOM] + text
  {
    assert ([BOM] + text)[1..] == text;
    assert ([BOM, BOM] + text)[1..] == [BOM] + text;
  }

  /** Text that does not begin with the mark, the empty text included, is returned unchanged. */
  lemma StripBomKeepsUnmarkedText(contents: string)
    requires contents == [] || contents[0] != BOM
    ensures StripBom(contents) == contents
  {
  }
}
