/**
 * Line-oriented text input as the two readers see it.
 *
 * A file is the sequence of its newline-separated segments, each already split
 * into tokens; the last segment is whatever follows the final newline (empty
 * when the file ends with one). Reading a segment sets end-of-file exactly when
 * it is the last one, so an empty file is a single empty segment.
 */
module LineInput {

  /** One line, as the tokens the tokenizer yields for it. */
  type Line = seq<string>

  /** The `k`-th token of a line, or the empty string when the line has fewer tokens. */
  function Token(line: Line, k: nat): string
  {
    if k < |line| then line[k] else ""
  }

  /** A point read from a line: its first three tokens, left unparsed. */
  datatype Coords = Coords(x: string, y: string, z: string)

  function CoordsOf(line: Line): Coords
  {
    Coords(Token(line, 0), Token(line, 1), Token(line, 2))
  }

  /** The line that writes a point as its three coordinate tokens. */
  function LineOf(c: Coords): Line
  {
    [c.x, c.y, c.z]
  }

  /** The lines that write a point list, one point per line. */
  function PointLines(cs: seq<Coords>): (r: seq<Line>)
    ensures |r| == |cs|
  {
    seq(|cs|, i requires 0 <= i < |cs| => LineOf(cs[i]))
  }

  /** The next segment of the unread stream (an empty line when nothing is left). */
  function Head(s: seq<Line>): Line
  {
    if s == [] then [] else s[0]
  }

  /** The stream after reading one segment. */
  function Rest(s: seq<Line>): (r: seq<Line>)
    ensures |r| == if s == [] then 0 else |s| - 1
  {
    if s == [] then [] else s[1..]
  }
}
