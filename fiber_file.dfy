/**
 * The fiber file format read by the tetrahedral viewer mesh: a header line
 * `fiber <closed> <n>` followed by up to n point lines, repeated.
 */
module FiberFile {
  import opened LineInput

  /** A fiber: an ordered point list and whether it is closed. */
  datatype Fiber = Fiber(points: seq<Coords>, closed: bool)

  /** How a load ended; each failure corresponds to a diagnostic on the error stream. */
  datatype LoadStatus = Loaded | CannotOpen | BadClosedFlag | FormatError

  /** The point lines a header asks for: up to `count` segments, stopping early at end of file. */
  function ReadPoints(s: seq<Line>, count: int): (r: seq<Coords>)
    ensures |r| == if count <= 0 then 0 else if count < |s| then count else |s|
  {
    if count <= 0 || s == [] then [] else [CoordsOf(s[0])] + ReadPoints(s[1..], count - 1)
  }

  /** The `i`-th point read is the point on the `i`-th line. */
  lemma {:induction false} ReadPointsAt(s: seq<Line>, count: int, i: nat)
    requires i < |ReadPoints(s, count)|
    ensures ReadPoints(s, count)[i] == CoordsOf(s[i])
  {
    if i > 0 {
      ReadPointsAt(s[1..], count - 1, i - 1);
    }
  }

  /** Reading one more point line when points are still wanted and the stream is not at its end. */
  lemma ReadPointsStep(s: seq<Line>, count: int)
    requires count > 0 && s != []
    ensures ReadPoints(s, count) == [CoordsOf(s[0])] + ReadPoints(s[1..], count - 1)
  {
  }

  /**
   * The fibers read from the unread stream `s`, and how reading ended. The
   * stream is read only while not at end of file, and every line where a
   * header is expected must begin with `fiber`.
   */
  function FiberStream(s: seq<Line>, parseInt: string -> int): (r: (seq<Fiber>, LoadStatus))
    decreases |s|
  {
    var head := Head(s);
    var rest := Rest(s);
    if Token(head, 0) != "fiber" then ([], FormatError)
    else
      var c := parseInt(Token(head, 1));
      if c != 1 && c != 0 then ([], BadClosedFlag)
      else
        var pts := ReadPoints(rest, parseInt(Token(head, 2)));
        var after := rest[|pts|..];
        var f := Fiber(pts, c == 1);
        if after == [] then ([f], Loaded)
        else
          var more := FiberStream(after, parseInt);
          ([f] + more.0, more.1)
  }

  /** A valid header followed by its point lines contributes one fiber, then reading resumes after those lines. */
  lemma FiberStreamStep(s: seq<Line>, parseInt: string -> int)
    requires Token(Head(s), 0) == "fiber"
    requires parseInt(Token(Head(s), 1)) in {0, 1}
    ensures var pts := ReadPoints(Rest(s), parseInt(Token(Head(s), 2)));
            var after := Rest(s)[|pts|..];
            var f := Fiber(pts, parseInt(Token(Head(s), 1)) == 1);
            FiberStream(s, parseInt) ==
              if after == [] then ([f], Loaded)
              else ([f] + FiberStream(after, parseInt).0, FiberStream(after, parseInt).1)
  {
  }

  /** Having read the fibers `done`, reading on from `rest` completes what the whole stream `s` yields. */
  ghost predicate Resumes(done: seq<Fiber>, rest: seq<Line>, s: seq<Line>, parseInt: string -> int)
  {
    var r := FiberStream(rest, parseInt);
    var a := FiberStream(s, parseInt);
    done + r.0 == a.0 && r.1 == a.1
  }

  /** Reading one more fiber `f` from `rest` either ends the stream with `done + [f]` or resumes at `after`. */
  lemma ResumesStep(done: seq<Fiber>, f: Fiber, rest: seq<Line>, after: seq<Line>, s: seq<Line>, parseInt: string -> int)
    requires Resumes(done, rest, s, parseInt)
    requires FiberStream(rest, parseInt) ==
               if after == [] then ([f], Loaded)
               else ([f] + FiberStream(after, parseInt).0, FiberStream(after, parseInt).1)
    ensures after != [] ==> Resumes(done + [f], after, s, parseInt)
    ensures after == [] ==> FiberStream(s, parseInt) == (done + [f], Loaded)
  {
    if after != [] {
      assert (done + [f]) + FiberStream(after, parseInt).0 == done + ([f] + FiberStream(after, parseInt).0);
    }
  }

  /**
   * Each header yields at most one fiber, with the closed flag it names and no
   * more points than it announces; a load never reports an open failure.
   */
  lemma FirstFiberFromHeader(s: seq<Line>, parseInt: string -> int)
    ensures var r := FiberStream(s, parseInt);
            var head := Head(s);
            var n := parseInt(Token(head, 2));
            r.1 != CannotOpen &&
            (r.0 != [] ==>
               Token(head, 0) == "fiber" &&
               r.0[0].closed == (parseInt(Token(head, 1)) == 1) &&
               |r.0[0].points| <= (if n < 0 then 0 else n))
    decreases |s|
  {
    var head := Head(s);
    var rest := Rest(s);
    if Token(head, 0) == "fiber" {
      var c := parseInt(Token(head, 1));
      if c == 1 || c == 0 {
        var pts := ReadPoints(rest, parseInt(Token(head, 2)));
        var after := rest[|pts|..];
        if after != [] {
          FirstFiberFromHeader(after, parseInt);
        }
      }
    }
  }

  // ---------------------------------------------------------------------------
  // A writer for the format, as the reader's partner

  /** Header and point lines for one fiber, given a way to print integers. */
  function FiberLines(f: Fiber, show: int -> string): (r: seq<Line>)
    ensures |r| == 1 + |f.points|
  {
    [["fiber", show(if f.closed then 1 else 0), show(|f.points|)]] +
    PointLines(f.points)
  }

  function Serialize(fs: seq<Fiber>, show: int -> string): seq<Line>
  {
    if fs == [] then [] else FiberLines(fs[0], show) + Serialize(fs[1..], show)
  }

  /** `parseInt` reads back what `show` prints, for every count and flag a writer uses. */
  ghost predicate ReadsBack(parseInt: string -> int, show: int -> string)
  {
    forall n: int :: 0 <= n ==> parseInt(show(n)) == n
  }

  lemma {:induction false} ReadPointsOfLines(pts: seq<Coords>, more: seq<Line>)
    ensures ReadPoints(PointLines(pts) + more, |pts|) == pts
  {
    var lines := PointLines(pts);
    var r := ReadPoints(lines + more, |pts|);
    assert |r| == |pts|;
    forall i | 0 <= i < |pts| ensures r[i] == pts[i] {
      ReadPointsAt(lines + more, |pts|, i);
      assert (lines + more)[i] == LineOf(pts[i]);
    }
  }

  /** One well-formed fiber in front of a non-empty remainder is read whole, and reading resumes at the remainder. */
  lemma ReadOneFiber(f: Fiber, later: seq<Line>, show: int -> string, parseInt: string -> int)
    requires ReadsBack(parseInt, show)
    requires later != []
    ensures FiberStream(FiberLines(f, show) + later, parseInt) ==
            ([f] + FiberStream(later, parseInt).0, FiberStream(later, parseInt).1)
  {
    var pts := f.points;
    var lines := PointLines(pts);
    var s := FiberLines(f, show) + later;
    assert s == [["fiber", show(if f.closed then 1 else 0), show(|pts|)]] + (lines + later);
    assert Head(s) == ["fiber", show(if f.closed then 1 else 0), show(|pts|)];
    assert Rest(s) == lines + later;
    assert parseInt(show(|pts|)) == |pts|;
    assert parseInt(show(if f.closed then 1 else 0)) == if f.closed then 1 else 0;
    ReadPointsOfLines(pts, later);
    assert Rest(s)[|pts|..] == later;
  }

  lemma ConsAppend<T>(xs: seq<T>, ys: seq<T>)
    requires xs != []
    ensures [xs[0]] + (xs[1..] + ys) == xs + ys
  {
    assert xs == [xs[0]] + xs[1..];
  }

  lemma SerializeCons(fs: seq<Fiber>, tail: seq<Line>, show: int -> string)
    requires fs != []
    ensures Serialize(fs, show) + tail == FiberLines(fs[0], show) + (Serialize(fs[1..], show) + tail)
  {
    assert Serialize(fs, show) == FiberLines(fs[0], show) + Serialize(fs[1..], show);
  }

  /** One more fiber in front of a stream that is read as `rest` then `t` is read as that fiber, `rest`, then `t`. */
  lemma LoadOneMore(fs: seq<Fiber>, tail: seq<Line>, show: int -> string, parseInt: string -> int)
    requires ReadsBack(parseInt, show)
    requires tail != [] && fs != []
    requires FiberStream(Serialize(fs[1..], show) + tail, parseInt) ==
             (fs[1..] + FiberStream(tail, parseInt).0, FiberStream(tail, parseInt).1)
    ensures FiberStream(Serialize(fs, show) + tail, parseInt) ==
            (fs + FiberStream(tail, parseInt).0, FiberStream(tail, parseInt).1)
  {
    var later := Serialize(fs[1..], show) + tail;
    var t := FiberStream(tail, parseInt);
    SerializeCons(fs, tail, show);
    ReadOneFiber(fs[0], later, show, parseInt);
    ConsAppend(fs, t.0);
  }

  /** Reading serialized fibers followed by any non-empty tail yields those fibers, then whatever the tail yields. */
  lemma {:induction false} LoadSerializedThen(fs: seq<Fiber>, tail: seq<Line>, show: int -> string, parseInt: string -> int)
    requires ReadsBack(parseInt, show)
    requires tail != []
    ensures FiberStream(Serialize(fs, show) + tail, parseInt) ==
            (fs + FiberStream(tail, parseInt).0, FiberStream(tail, parseInt).1)
  {
    if fs == [] {
      assert Serialize(fs, show) + tail == tail;
      assert fs + FiberStream(tail, parseInt).0 == FiberStream(tail, parseInt).0;
    } else {
      LoadSerializedThen(fs[1..], tail, show, parseInt);
      LoadOneMore(fs, tail, show, parseInt);
    }
  }

  /** A file holding serialized fibers and no trailing newline loads all of them without error. */
  lemma {:induction false} LoadSerialized(fs: seq<Fiber>, show: int -> string, parseInt: string -> int)
    requires ReadsBack(parseInt, show)
    requires fs != []
    ensures FiberStream(Serialize(fs, show), parseInt) == (fs, Loaded)
  {
    var last := fs[|fs| - 1];
    var init := fs[..|fs| - 1];
    SerializeSplit(init, last, show);
    assert Serialize(fs, show) == Serialize(init, show) + FiberLines(last, show) by {
      assert init + [last] == fs;
    }
    LoadSerializedThen(init, FiberLines(last, show), show, parseInt);
    ReadLastFiber(last, show, parseInt);
    assert init + [last] == fs;
  }

  /** One well-formed fiber at the very end of the file is read whole and the load succeeds. */
  lemma ReadLastFiber(f: Fiber, show: int -> string, parseInt: string -> int)
    requires ReadsBack(parseInt, show)
    ensures FiberStream(FiberLines(f, show), parseInt) == ([f], Loaded)
  {
    var pts := f.points;
    var s := FiberLines(f, show);
    assert Head(s) == ["fiber", show(if f.closed then 1 else 0), show(|pts|)];
    assert Rest(s) == PointLines(pts) + [];
    assert parseInt(show(|pts|)) == |pts|;
    assert parseInt(show(if f.closed then 1 else 0)) == if f.closed then 1 else 0;
    ReadPointsOfLines(pts, []);
    assert Rest(s)[|pts|..] == [];
  }

  lemma {:induction false} SerializeSplit(init: seq<Fiber>, last: Fiber, show: int -> string)
    ensures Serialize(init + [last], show) == Serialize(init, show) + FiberLines(last, show)
  {
    if init == [] {
      assert [] + [last] == [last];
    } else {
      assert (init + [last])[1..] == init[1..] + [last];
      SerializeSplit(init[1..], last, show);
    }
  }

  /**
   * A file ending in a newline has an empty last segment where a header is
   * expected: every fiber is kept, and the load still ends in a format error.
   */
  lemma TrailingNewlineIsFormatError(fs: seq<Fiber>, show: int -> string, parseInt: string -> int)
    requires ReadsBack(parseInt, show)
    ensures FiberStream(Serialize(fs, show) + [[]], parseInt) == (fs, FormatError)
  {
    LoadSerializedThen(fs, [[]], show, parseInt);
    assert Head([[]]) == [];
    assert FiberStream([[]], parseInt) == ([], FormatError);
    assert fs + [] == fs;
  }

  /** A header whose closed flag is neither 0 nor 1 stops the load; the fibers before it stay, that one is dropped. */
  lemma BadClosedFlagStops(fs: seq<Fiber>, bad: Line, more: seq<Line>, show: int -> string, parseInt: string -> int)
    requires ReadsBack(parseInt, show)
    requires Token(bad, 0) == "fiber" && parseInt(Token(bad, 1)) != 0 && parseInt(Token(bad, 1)) != 1
    ensures FiberStream(Serialize(fs, show) + [bad] + more, parseInt) == (fs, BadClosedFlag)
  {
    assert Serialize(fs, show) + [bad] + more == Serialize(fs, show) + ([bad] + more);
    LoadSerializedThen(fs, [bad] + more, show, parseInt);
    assert Head([bad] + more) == bad;
    assert FiberStream([bad] + more, parseInt) == ([], BadClosedFlag);
    assert fs + [] == fs;
  }
}
