/** Step 2 of `drawHighlights` (src/App.tsx): the y-sorted display rectangles
    are grouped into lines, first fit. A rectangle joins the first line whose
    average `y` is closer to its own `y` than 0.6 times that line's average
    height; otherwise it opens a new line. */
module LineClusterer {
  import opened Words
  import opened Sorting

  function Abs(v: real): real {
    if v < 0.0 then -v else v
  }

  /** `line.reduce((sum, r) => sum + r.y, 0)` */
  function SumY(line: seq<WordRect>): real {
    if line == [] then 0.0 else SumY(line[..|line| - 1]) + line[|line| - 1].y
  }

  /** `line.reduce((sum, r) => sum + r.height, 0)` */
  function SumHeight(line: seq<WordRect>): real {
    if line == [] then 0.0 else SumHeight(line[..|line| - 1]) + line[|line| - 1].height
  }

  /** The joining test. On an empty line JavaScript would divide by zero, get
      NaN and fail the comparison; the model fails it too. */
  predicate Fits(line: seq<WordRect>, r: WordRect) {
    |line| > 0 &&
    var n := |line| as real;
    Abs(r.y - SumY(line) / n) < SumHeight(line) / n * 0.6
  }

  /** The index of the first line, from `from` on, that `r` fits; `|lines|`
      when there is none. */
  function FirstFit(lines: seq<seq<WordRect>>, r: WordRect, from: nat): (j: nat)
    requires from <= |lines|
    ensures from <= j <= |lines|
    ensures forall k :: from <= k < j ==> !Fits(lines[k], r)
    ensures j < |lines| ==> Fits(lines[j], r)
    decreases |lines| - from
  {
    if from == |lines| then from
    else if Fits(lines[from], r) then from
    else FirstFit(lines, r, from + 1)
  }

  /** One rectangle placed: appended to the first line it fits, or opening a
      new last line. */
  function Place(lines: seq<seq<WordRect>>, r: WordRect): seq<seq<WordRect>> {
    var j := FirstFit(lines, r, 0);
    if j < |lines| then lines[j := lines[j] + [r]] else lines + [[r]]
  }

  /** The lines after placing every rectangle of `rects` in turn. */
  function Cluster(rects: seq<WordRect>): seq<seq<WordRect>> {
    if rects == [] then [] else Place(Cluster(rects[..|rects| - 1]), rects[|rects| - 1])
  }

  /** Step 2 as a whole: the rectangles are sorted by `y`, then clustered.
      Every rectangle lands in exactly one line, and each line is in
      top-to-bottom order. */
  method GroupLines(wordRects: seq<WordRect>) returns (lines: seq<seq<WordRect>>)
    ensures lines == Cluster(SortByKey(wordRects, Vertical))
    ensures multiset(Flatten(lines)) == multiset(wordRects)
    ensures forall k :: 0 <= k < |lines| ==> |lines[k]| > 0 && SortedBy(lines[k], Vertical)
  {
    var sortedByY := SortByKey(wordRects, Vertical);
    lines := ClusterLines(sortedByY);
    ClusterIsPartition(sortedByY);
    ClusterLinesNonEmpty(sortedByY);
    ClusterKeepsLinesSorted(sortedByY);
  }

  /** The clustering loop: `lines` grows and lines are pushed into in place. */
  method ClusterLines(sortedByY: seq<WordRect>) returns (lines: seq<seq<WordRect>>)
    ensures lines == Cluster(sortedByY)
  {
    lines := [];
    for i := 0 to |sortedByY|
      invariant lines == Cluster(sortedByY[..i])
      invariant forall k :: 0 <= k < |lines| ==> |lines[k]| > 0
    {
      var rect := sortedByY[i];
      ghost var before := lines;
      var foundLine := false;
      var j := 0;
      while j < |lines|
        invariant 0 <= j <= |lines|
        invariant lines == before
        invariant FirstFit(lines, rect, 0) == FirstFit(lines, rect, j)
      {
        var line := lines[j];
        var avgY := SumY(line) / (|line| as real);
        var avgHeight := SumHeight(line) / (|line| as real);
        if Abs(rect.y - avgY) < avgHeight * 0.6 {
          lines := lines[j := line + [rect]];
          foundLine := true;
          break;
        }
        j := j + 1;
      }
      if !foundLine {
        lines := lines + [[rect]];
      }
      assert lines == Place(before, rect);
      assert sortedByY[..i + 1][..i] == sortedByY[..i];
    }
    assert sortedByY[..|sortedByY|] == sortedByY;
  }

  /** All rectangles of all lines, line after line. */
  function Flatten(lines: seq<seq<WordRect>>): seq<WordRect> {
    if lines == [] then [] else lines[0] + Flatten(lines[1..])
  }

  lemma {:induction false} FlattenPush(lines: seq<seq<WordRect>>, j: nat, r: WordRect)
    requires j < |lines|
    ensures multiset(Flatten(lines[j := lines[j] + [r]])) == multiset(Flatten(lines)) + multiset{r}
  {
    var u := lines[j := lines[j] + [r]];
    var tail, utail := Flatten(lines[1..]), Flatten(u[1..]);
    assert Flatten(u) == u[0] + utail;
    assert Flatten(lines) == lines[0] + tail;
    if j == 0 {
      assert u[1..] == lines[1..];
      calc {
        multiset(Flatten(u));
        multiset(lines[0] + [r]) + multiset(utail);
        multiset(lines[0]) + multiset{r} + multiset(tail);
        multiset(Flatten(lines)) + multiset{r};
      }
    } else {
      assert u[0] == lines[0];
      assert u[1..] == lines[1..][j - 1 := lines[1..][j - 1] + [r]];
      FlattenPush(lines[1..], j - 1, r);
      calc {
        multiset(Flatten(u));
        multiset(lines[0]) + multiset(utail);
        multiset(lines[0]) + (multiset(tail) + multiset{r});
        multiset(Flatten(lines)) + multiset{r};
      }
    }
  }

  lemma {:induction false} FlattenAppend(lines: seq<seq<WordRect>>, line: seq<WordRect>)
    ensures Flatten(lines + [line]) == Flatten(lines) + line
  {
    if lines != [] {
      FlattenAppend(lines[1..], line);
      assert (lines + [line])[1..] == lines[1..] + [line];
    }
  }

  /** Clustering is a partition of its input: the lines together hold every
      rectangle exactly as often as the input does, so the total word count
      is preserved. */
  lemma {:induction false} ClusterIsPartition(rects: seq<WordRect>)
    ensures multiset(Flatten(Cluster(rects))) == multiset(rects)
    ensures |Flatten(Cluster(rects))| == |rects|
  {
    if rects != [] {
      var p, r := rects[..|rects| - 1], rects[|rects| - 1];
      assert rects == p + [r];
      calc {
        multiset(Flatten(Cluster(rects)));
        multiset(Flatten(Place(Cluster(p), r)));
        { PlaceAddsOne(Cluster(p), r); }
        multiset(Flatten(Cluster(p))) + multiset{r};
        { ClusterIsPartition(p); }
        multiset(p) + multiset{r};
        multiset(rects);
      }
    }
    assert |Flatten(Cluster(rects))| == |multiset(Flatten(Cluster(rects)))|;
  }

  /** Placing a rectangle adds exactly that rectangle to the lines. */
  lemma PlaceAddsOne(lines: seq<seq<WordRect>>, r: WordRect)
    ensures multiset(Flatten(Place(lines, r))) == multiset(Flatten(lines)) + multiset{r}
  {
    var j := FirstFit(lines, r, 0);
    if j < |lines| {
      FlattenPush(lines, j, r);
    } else {
      FlattenAppend(lines, [r]);
    }
  }

  /** Every line holds at least one rectangle, and there are never more lines
      than rectangles. */
  lemma {:induction false} ClusterLinesNonEmpty(rects: seq<WordRect>)
    ensures forall k :: 0 <= k < |Cluster(rects)| ==> |Cluster(rects)[k]| > 0
    ensures |Cluster(rects)| <= |rects|
  {
    if rects != [] {
      ClusterLinesNonEmpty(rects[..|rects| - 1]);
    }
  }

  /** When the input comes sorted by `y`, so does every line. */
  lemma {:induction false} ClusterKeepsLinesSorted(rects: seq<WordRect>)
    requires SortedBy(rects, Vertical)
    ensures forall k :: 0 <= k < |Cluster(rects)| ==> SortedBy(Cluster(rects)[k], Vertical)
  {
    if rects != [] {
      var p, r := rects[..|rects| - 1], rects[|rects| - 1];
      assert SortedBy(p, Vertical) by {
        forall i, j | 0 <= i < j < |p| ensures Key(p[i], Vertical) <= Key(p[j], Vertical) {
          assert p[i] == rects[i] && p[j] == rects[j];
        }
      }
      ClusterKeepsLinesSorted(p);
      ClusterIsPartition(p);
      forall x | x in Flatten(Cluster(p)) ensures x.y <= r.y {
        assert x in multiset(p);
        var i :| 0 <= i < |p| && p[i] == x;
        assert rects[i] == x;
      }
      PlaceKeepsSorted(Cluster(p), r);
      assert Cluster(rects) == Place(Cluster(p), r);
    }
  }

  /** Placing a rectangle no higher than any placed one keeps the lines
      sorted. */
  lemma PlaceKeepsSorted(lines: seq<seq<WordRect>>, r: WordRect)
    requires forall k :: 0 <= k < |lines| ==> SortedBy(lines[k], Vertical)
    requires forall x :: x in Flatten(lines) ==> x.y <= r.y
    ensures forall k :: 0 <= k < |Place(lines, r)| ==> SortedBy(Place(lines, r)[k], Vertical)
  {
    var j := FirstFit(lines, r, 0);
    if j < |lines| {
      forall x | x in lines[j] ensures x.y <= r.y {
        FlattenMember(lines, j, x);
      }
      var line := lines[j] + [r];
      forall a, b | 0 <= a < b < |line| ensures Key(line[a], Vertical) <= Key(line[b], Vertical) {
        assert line[a] == lines[j][a] && line[a] in lines[j];
        if b < |lines[j]| {
          assert line[b] == lines[j][b];
        }
      }
    }
  }

  lemma {:induction false} FlattenMember(lines: seq<seq<WordRect>>, j: nat, x: WordRect)
    requires j < |lines| && x in lines[j]
    ensures x in Flatten(lines)
  {
    if j > 0 {
      FlattenMember(lines[1..], j - 1, x);
    }
  }

  /** A line whose average height is zero accepts no second rectangle (the
      test is strict), so rectangles that all have zero height each open a
      line of their own. */
  lemma {:induction false} ZeroHeightRectsStayAlone(rects: seq<WordRect>)
    requires forall k :: 0 <= k < |rects| ==> rects[k].height == 0.0
    ensures |Cluster(rects)| == |rects|
    ensures forall k :: 0 <= k < |rects| ==> Cluster(rects)[k] == [rects[k]]
  {
    if rects != [] {
      var p := rects[..|rects| - 1];
      var r := rects[|rects| - 1];
      ZeroHeightRectsStayAlone(p);
      var lines := Cluster(p);
      forall k | 0 <= k < |lines| ensures !Fits(lines[k], r) {
        assert lines[k] == [p[k]];
        assert SumHeight(lines[k]) == 0.0;
      }
      assert FirstFit(lines, r, 0) == |lines|;
    }
  }
}
