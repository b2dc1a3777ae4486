/** The orderings of src/App.tsx. `drawHighlights` sorts the display
    rectangles by `y` before clustering them into lines and sorts each line by
    `x` before merging it into blocks; both comparators are `a.k - b.k`, a
    proper ordering, and `Array.prototype.sort` is stable. `groupMenuItems`
    sorts with a reading-order comparator that is not an ordering at all. */
module Sorting {
  import opened Words

  datatype Axis = Vertical | Horizontal

  function Key(r: WordRect, axis: Axis): real {
    match axis
    case Vertical => r.y
    case Horizontal => r.x
  }

  predicate SortedBy(s: seq<WordRect>, axis: Axis) {
    forall i, j :: 0 <= i < j < |s| ==> Key(s[i], axis) <= Key(s[j], axis)
  }

  /** Inserts `r` before the first element with a larger or equal key, so
      that equal keys keep their input order. */
  function Insert(r: WordRect, s: seq<WordRect>, axis: Axis): (t: seq<WordRect>)
    requires SortedBy(s, axis)
    ensures SortedBy(t, axis)
    ensures multiset(t) == multiset(s) + multiset{r}
  {
    if s == [] || Key(r, axis) <= Key(s[0], axis) then [r] + s
    else
      assert SortedBy(s[1..], axis) by {
        forall i, j | 0 <= i < j < |s| - 1 ensures Key(s[1..][i], axis) <= Key(s[1..][j], axis) {
          assert s[1..][i] == s[i + 1] && s[1..][j] == s[j + 1];
        }
      }
      var rest := Insert(r, s[1..], axis);
      InsertBehind(r, s, rest, axis);
      [s[0]] + rest
  }

  /** The recursive case of `Insert`: `r` goes somewhere after the head, into
      a sorted rearrangement `rest` of the tail. */
  lemma InsertBehind(r: WordRect, s: seq<WordRect>, rest: seq<WordRect>, axis: Axis)
    requires SortedBy(s, axis) && s != [] && Key(s[0], axis) < Key(r, axis)
    requires SortedBy(rest, axis) && multiset(rest) == multiset(s[1..]) + multiset{r}
    ensures SortedBy([s[0]] + rest, axis)
    ensures multiset([s[0]] + rest) == multiset(s) + multiset{r}
  {
    assert s == [s[0]] + s[1..];
    var u := s[1..] + [r];
    assert multiset(rest) == multiset(u);
    forall k | 0 <= k < |u| ensures Key(s[0], axis) <= Key(u[k], axis) {
      if k < |s| - 1 { assert u[k] == s[k + 1]; }
    }
    BoundShared(rest, u, Key(s[0], axis), axis);
    ConsSorted(s[0], rest, axis);
  }

  lemma ConsSorted(x: WordRect, t: seq<WordRect>, axis: Axis)
    requires SortedBy(t, axis)
    requires forall k :: 0 <= k < |t| ==> Key(x, axis) <= Key(t[k], axis)
    ensures SortedBy([x] + t, axis)
  {
    var s := [x] + t;
    forall i, j | 0 <= i < j < |s| ensures Key(s[i], axis) <= Key(s[j], axis) {
      assert s[j] == t[j - 1];
      if i > 0 { assert s[i] == t[i - 1]; }
    }
  }

  /** A lower bound on the keys of a sequence bounds those of any
      rearrangement of it. */
  lemma BoundShared(t: seq<WordRect>, u: seq<WordRect>, lo: real, axis: Axis)
    requires multiset(t) == multiset(u)
    requires forall k :: 0 <= k < |u| ==> lo <= Key(u[k], axis)
    ensures forall k :: 0 <= k < |t| ==> lo <= Key(t[k], axis)
  {
    forall k | 0 <= k < |t| ensures lo <= Key(t[k], axis) {
      assert t[k] in multiset(u);
      var j :| 0 <= j < |u| && u[j] == t[k];
    }
  }

  /** `[...rs].sort((a, b) => a.k - b.k)`: the same rectangles, in ascending
      order of the key. */
  function SortByKey(rs: seq<WordRect>, axis: Axis): (t: seq<WordRect>)
    ensures SortedBy(t, axis)
    ensures multiset(t) == multiset(rs)
    ensures |t| == |rs|
  {
    if rs == [] then []
    else
      assert rs == [rs[0]] + rs[1..];
      Insert(rs[0], SortByKey(rs[1..], axis), axis)
  }

  /** The elements of `s` whose key is `v`, in their order in `s`. */
  function WithKey(s: seq<WordRect>, v: real, axis: Axis): seq<WordRect> {
    if s == [] then []
    else (if Key(s[0], axis) == v then [s[0]] else []) + WithKey(s[1..], v, axis)
  }

  lemma SortedTail(s: seq<WordRect>, axis: Axis)
    requires SortedBy(s, axis) && s != []
    ensures SortedBy(s[1..], axis)
  {
    forall i, j | 0 <= i < j < |s| - 1 ensures Key(s[1..][i], axis) <= Key(s[1..][j], axis) {
      assert s[1..][i] == s[i + 1] && s[1..][j] == s[j + 1];
    }
  }

  /** `Insert` puts `r` in front of every element with the same key, and
      moves no other element past one of equal key. */
  lemma {:induction false} InsertWithKey(r: WordRect, s: seq<WordRect>, axis: Axis, v: real)
    requires SortedBy(s, axis)
    ensures WithKey(Insert(r, s, axis), v, axis) == (if Key(r, axis) == v then [r] else []) + WithKey(s, v, axis)
  {
    var t := Insert(r, s, axis);
    if s == [] || Key(r, axis) <= Key(s[0], axis) {
      assert t == [r] + s;
      assert t[1..] == s;
    } else {
      SortedTail(s, axis);
      var rest := Insert(r, s[1..], axis);
      assert t == [s[0]] + rest;
      assert t[1..] == rest;
      InsertWithKey(r, s[1..], axis, v);
      assert Key(r, axis) == v ==> Key(s[0], axis) != v;
    }
  }

  /** The sort is stable: for every key, the rectangles with that key come
      out in the order they went in. Ties matter downstream, since the line
      clustering depends on which of two rectangles at the same `y` comes
      first. */
  lemma {:induction false} SortByKeyStable(rs: seq<WordRect>, axis: Axis, v: real)
    ensures WithKey(SortByKey(rs, axis), v, axis) == WithKey(rs, v, axis)
  {
    if rs != [] {
      SortByKeyStable(rs[1..], axis, v);
      InsertWithKey(rs[0], SortByKey(rs[1..], axis), axis, v);
    }
  }

  /** The comparator of `groupMenuItems`: rectangles less than 10 display
      units apart vertically compare by `x`, others by `y`. A negative result
      puts `a` first. */
  function ReadingOrderCompare(a: WordRect, b: WordRect): real {
    var yDiff := a.y - b.y;
    if -10.0 < yDiff < 10.0 then a.x - b.x else yDiff
  }

  /** The reading-order comparator has a cycle: `a` before `b`, `b` before
      `c` and `c` before `a`. No order satisfies it, so the order the
      segmenter sees is whatever the engine's sort makes of it. */
  lemma ReadingOrderHasCycle()
    ensures exists a: WordRect, b: WordRect, c: WordRect ::
      ReadingOrderCompare(a, b) < 0.0 && ReadingOrderCompare(b, c) < 0.0 && ReadingOrderCompare(c, a) < 0.0
  {
    var c := WordRect(-1.0, 12.0, 1.0, 1.0, 0, Title, "c");
    var b := WordRect(0.0, 6.0, 1.0, 1.0, 1, Title, "b");
    var a := WordRect(5.0, 0.0, 1.0, 1.0, 2, Title, "a");
    assert ReadingOrderCompare(c, b) < 0.0 && ReadingOrderCompare(b, a) < 0.0 && ReadingOrderCompare(a, c) < 0.0;
  }
}
