/**
 * The text format of intervals and interval unions. An interval prints as
 * `<bracket><lo>,<hi><bracket>`; a union prints its intervals back to back
 * (the empty union prints the empty interval `(0,0)`) and ends with `;`.
 *
 * The stream is modelled as a sequence of tokens: a single character, or a
 * whole boundary value. How a boundary is spelled and read back is left to
 * the token, so a printed boundary always reads back as itself.
 */
module UnionText {
  import opened Bounds
  import opened Intervals
  import opened IntervalUnions
  import opened Canonicalise

  datatype Token = Ch(c: char) | Num(b: Bound)

  /** The state a stream is left in by the union reader. */
  datatype StreamState = Good | Fail | EofFail

  /** What the interval reader does: read an interval, fail and restore the stream, or meet the end of input. */
  datatype Scan = Got(I: Interval, rest: seq<Token>) | Failed | EndOfInput

  /** Outcome of the union reader: the value assigned (`None` leaves the target untouched), the stream left over, its state. */
  datatype Parsed = Parsed(value: Option, rest: seq<Token>, state: StreamState)

  datatype Option = None | Some(A: IntervalUnion)

  /** `operator<<` for an interval. */
  function PrintInterval(I: Interval): (ts: seq<Token>)
    ensures |ts| == 5
  {
    [Ch(LeftChar(I.lc)), Num(I.lo), Ch(','), Num(I.hi), Ch(RightChar(I.rc))]
  }

  function PrintList(s: seq<Interval>): (ts: seq<Token>)
    ensures |ts| == 5 * |s|
  {
    if |s| == 0 then [] else PrintInterval(s[0]) + PrintList(s[1..])
  }

  /** `operator<<` for a union. */
  function PrintUnion(A: IntervalUnion): (ts: seq<Token>)
    ensures |ts| > 0 && ts[|ts| - 1] == Ch(';')
  {
    (if IsEmptyUnion(A) then PrintInterval(Empty) else PrintList(A.intervals)) + [Ch(';')]
  }

  /**
   * `operator>>` for an interval: a left bracket, a boundary, a comma, a
   * boundary and a right bracket, passed to the constructor. Any mismatch
   * restores the stream and fails; an empty stream is the end of input.
   */
  function ScanInterval(ts: seq<Token>): (r: Scan)
    ensures r.EndOfInput? <==> |ts| == 0
    ensures r.Got? ==>
      |ts| >= 5 && r.rest == ts[5..] && WellFormed(r.I)
      && ts[0].Ch? && IsLeftBracket(ts[0].c) && ts[2] == Ch(',') && ts[4].Ch? && IsRightBracket(ts[4].c)
      && ts[1].Num? && ts[3].Num?
      && (IsNaN(r.I) <==> ts[1].b.NaN? || ts[3].b.NaN?)
  {
    if |ts| == 0 then EndOfInput
    else if !(ts[0].Ch? && IsLeftBracket(ts[0].c)) then Failed
    else if |ts| < 2 || !ts[1].Num? then Failed
    else if |ts| < 3 || ts[2] != Ch(',') then Failed
    else if |ts| < 4 || !ts[3].Num? then Failed
    else if |ts| < 5 || !(ts[4].Ch? && IsRightBracket(ts[4].c)) then Failed
    else Got(Make(ts[0].c, ts[1].b, ts[3].b, ts[4].c), ts[5..])
  }

  /**
   * The reading loop of the union reader: keep every non-empty interval read;
   * the first NaN interval replaces everything kept so far and every later
   * interval is ignored.
   */
  function ReadIntervals(ts: seq<Token>, kept: seq<Interval>, isnan: bool): (res: (seq<Interval>, seq<Token>))
    requires AllWellFormed(kept)
    ensures AllWellFormed(res.0)
    ensures !ScanInterval(res.1).Got? && |res.1| <= |ts|
    decreases |ts|
  {
    match ScanInterval(ts)
    case Got(I, rest) =>
      if isnan then ReadIntervals(rest, kept, true)
      else if IsNaN(I) then ReadIntervals(rest, [I], true)
      else if IsEmpty(I) then ReadIntervals(rest, kept, false)
      else ReadIntervals(rest, kept + [I], false)
    case _ => (kept, ts)
  }

  /**
   * `operator>>` for a union. After the loop stops: at the end of input the
   * union read so far is assigned; otherwise the next character is read and,
   * if it is the terminating `;`, the union is assigned and the stream is
   * good, else the stream fails and the target is left untouched.
   */
  function ParseUnion(ts: seq<Token>): (p: Parsed)
    ensures p.value.Some? ==> Canonical(p.value.A)
    ensures p.state == Good ==> p.value.Some?
    ensures |p.rest| <= |ts|
  {
    var (kept, left) := ReadIntervals(ts, [], false);
    if |left| == 0 then
      Parsed(Some(FromIntervals(kept)), [], EofFail)
    else if left[0] == Ch(';') then
      Parsed(Some(FromIntervals(kept)), left[1..], Good)
    else
      Parsed(None, left[1..], Fail)
  }

  // ---------------------------------------------------------------------
  // Round trip
  // ---------------------------------------------------------------------

  /** A well-formed interval reads back as itself. */
  lemma ScanPrinted(I: Interval, rest: seq<Token>)
    requires WellFormed(I)
    ensures ScanInterval(PrintInterval(I) + rest) == Got(I, rest)
  {
    var ts := PrintInterval(I) + rest;
    assert ts[5..] == rest;
    assert ts[0] == Ch(LeftChar(I.lc)) && ts[1] == Num(I.lo) && ts[2] == Ch(',');
    assert ts[3] == Num(I.hi) && ts[4] == Ch(RightChar(I.rc));
  }

  /** Reading the printed form of proper intervals keeps them all, in order. */
  lemma {:induction false} ReadPrinted(s: seq<Interval>, tail: seq<Token>, kept: seq<Interval>)
    requires AllProper(s) && AllProper(kept)
    requires !ScanInterval(tail).Got?
    ensures AllWellFormed(kept)
    ensures ReadIntervals(PrintList(s) + tail, kept, false) == (kept + s, tail)
    decreases |s|
  {
    if |s| == 0 {
      assert PrintList(s) + tail == tail;
      assert kept + s == kept;
    } else {
      assert PrintList(s) + tail == PrintInterval(s[0]) + (PrintList(s[1..]) + tail);
      ScanPrinted(s[0], PrintList(s[1..]) + tail);
      assert Proper(s[0]);
      assert AllProper(s[1..]) by {
        forall k | 0 <= k < |s[1..]| ensures Proper(s[1..][k]) {
          assert s[1..][k] == s[k + 1];
        }
      }
      assert AllProper(kept + [s[0]]) by {
        forall k | 0 <= k < |kept + [s[0]]| ensures Proper((kept + [s[0]])[k]) {
          if k < |kept| {
            assert (kept + [s[0]])[k] == kept[k];
          }
        }
      }
      ReadPrinted(s[1..], tail, kept + [s[0]]);
      assert kept + [s[0]] + s[1..] == kept + s;
    }
  }

  /**
   * Reading back the printed form of a canonical union, whatever follows it,
   * gives the same union, consumes exactly the printed text and leaves the
   * stream good. This includes the empty union and the NaN union.
   */
  lemma RoundTrip(A: IntervalUnion, rest: seq<Token>)
    requires Canonical(A)
    ensures ParseUnion(PrintUnion(A) + rest) == Parsed(Some(A), rest, Good)
  {
    var tail := [Ch(';')] + rest;
    assert tail[0] == Ch(';') && tail[1..] == rest;
    assert ScanInterval(tail) == Failed;
    if IsEmptyUnion(A) {
      assert PrintUnion(A) + rest == PrintInterval(Empty) + tail;
      ScanPrinted(Empty, tail);
      assert ReadIntervals(PrintUnion(A) + rest, [], false) == ([], tail);
      assert A == EmptyUnion;
    } else if IsNaNUnion(A) {
      assert A == NaNUnion;
      assert PrintUnion(A) + rest == PrintInterval(NaNInterval) + tail;
      ScanPrinted(NaNInterval, tail);
      assert ReadIntervals(PrintUnion(A) + rest, [], false) == ([NaNInterval], tail);
      assert HasNaN([NaNInterval]);
    } else {
      var s := A.intervals;
      assert PrintUnion(A) + rest == PrintList(s) + tail;
      SeparatedSorted(s);
      ReadPrinted(s, tail, []);
      assert [] + s == s;
      var B := FromIntervals(s);
      assert !HasNaN(s) by {
        SeparatedProper(s);
      }
      CanonicalUnique(B, A);
    }
  }

  /** A stream that starts with neither an interval nor `;` fails and assigns nothing. */
  lemma BadStart(ts: seq<Token>)
    requires |ts| > 0 && ts[0] != Ch(';') && !(ts[0].Ch? && IsLeftBracket(ts[0].c))
    ensures ParseUnion(ts) == Parsed(None, ts[1..], Fail)
  {
  }
}
