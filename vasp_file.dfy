/**
 * The point list the tetrahedral viewer reads from a VASP position file:
 * every line after the first line whose first token is `Cartesian` is one
 * point.
 */
module VaspFile {
  import opened LineInput

  /** Lines that do not start a point block. */
  ghost predicate NoCartesian(lines: seq<Line>)
  {
    forall i :: 0 <= i < |lines| ==> Token(lines[i], 0) != "Cartesian"
  }

  /** Each remaining segment read as one point. */
  function AllCoords(s: seq<Line>): (r: seq<Coords>)
    ensures |r| == |s|
    ensures forall i :: 0 <= i < |s| ==> r[i] == CoordsOf(s[i])
  {
    seq(|s|, i requires 0 <= i < |s| => CoordsOf(s[i]))
  }

  /** Reading one more segment as a point. */
  lemma AllCoordsStep(s: seq<Line>)
    requires s != []
    ensures AllCoords(s) == [CoordsOf(s[0])] + AllCoords(s[1..])
  {
    var r := [CoordsOf(s[0])] + AllCoords(s[1..]);
    assert forall i :: 0 <= i < |s| ==> r[i] == CoordsOf(s[i]);
  }

  /**
   * The points read from the unread stream `s`. Lines are skipped until a
   * `Cartesian` line; every later segment then gives one point. When that line
   * is the last segment, the failed read leaves it in the buffer, and it is
   * read once as a point itself.
   */
  function VaspPoints(s: seq<Line>): (r: seq<Coords>)
    decreases |s|
  {
    var head := Head(s);
    var rest := Rest(s);
    if Token(head, 0) != "Cartesian" then
      if rest == [] then [] else VaspPoints(rest)
    else if rest == [] then [CoordsOf(head)]
    else AllCoords(rest)
  }

  /** Reading a line that does not start the point block. */
  lemma SkipLine(s: seq<Line>)
    requires s != [] && Token(s[0], 0) != "Cartesian"
    ensures VaspPoints(s) == if s[1..] == [] then [] else VaspPoints(s[1..])
  {
  }

  /** Reading the `Cartesian` line: the rest of the stream is the point block. */
  lemma StartPoints(s: seq<Line>)
    requires s != [] && Token(s[0], 0) == "Cartesian"
    ensures VaspPoints(s) == if s[1..] == [] then [CoordsOf(s[0])] else AllCoords(s[1..])
  {
  }

  /** Lines before the `Cartesian` line contribute nothing. */
  lemma {:induction false} SkipHeader(header: seq<Line>, s: seq<Line>)
    requires NoCartesian(header)
    requires s != []
    ensures VaspPoints(header + s) == VaspPoints(s)
  {
    if header != [] {
      assert Head(header + s) == header[0];
      assert Rest(header + s) == header[1..] + s;
      SkipHeader(header[1..], s);
    } else {
      assert header + s == s;
    }
  }

  /** A file without any `Cartesian` line yields no points. */
  lemma {:induction false} NoCartesianNoPoints(s: seq<Line>)
    requires NoCartesian(s)
    ensures VaspPoints(s) == []
    decreases |s|
  {
    if |s| > 1 {
      assert Token(Head(s), 0) != "Cartesian";
      NoCartesianNoPoints(Rest(s));
    } else if s != [] {
      assert Token(s[0], 0) != "Cartesian";
    }
  }

  /** Writing points after a header and a `Cartesian` line reads the same points back. */
  lemma PointsRoundTrip(header: seq<Line>, cart: Line, cs: seq<Coords>)
    requires NoCartesian(header)
    requires Token(cart, 0) == "Cartesian"
    requires cs != []
    ensures VaspPoints(header + [cart] + PointLines(cs)) == cs
  {
    var s := [cart] + PointLines(cs);
    assert header + [cart] + PointLines(cs) == header + s;
    SkipHeader(header, s);
    assert Rest(s) == PointLines(cs);
    var r := AllCoords(PointLines(cs));
    forall i | 0 <= i < |cs| ensures r[i] == cs[i] {
      assert CoordsOf(LineOf(cs[i])) == cs[i];
    }
  }

  /** A file ending in a newline gains one point made of empty tokens. */
  lemma TrailingNewlineAddsEmptyPoint(header: seq<Line>, cart: Line, cs: seq<Coords>)
    requires NoCartesian(header)
    requires Token(cart, 0) == "Cartesian"
    ensures VaspPoints(header + [cart] + PointLines(cs) + [[]]) == cs + [Coords("", "", "")]
  {
    var s := [cart] + (PointLines(cs) + [[]]);
    assert header + [cart] + PointLines(cs) + [[]] == header + s;
    SkipHeader(header, s);
    assert Rest(s) == PointLines(cs) + [[]];
    var r := AllCoords(PointLines(cs) + [[]]);
    forall i | 0 <= i < |cs| ensures r[i] == cs[i] {
      assert (PointLines(cs) + [[]])[i] == LineOf(cs[i]);
    }
    assert r[|cs|] == CoordsOf([]);
  }

  /** A `Cartesian` line that ends the file is itself read as the only point. */
  lemma CartesianLastIsReadAgain(header: seq<Line>, cart: Line)
    requires NoCartesian(header)
    requires Token(cart, 0) == "Cartesian"
    ensures VaspPoints(header + [cart]) == [CoordsOf(cart)]
  {
    SkipHeader(header, [cart]);
    assert Head([cart]) == cart;
  }
}
