/** The grey frames of `drawHighlights` (src/App.tsx): every menu item is
    outlined by the bounding box of all its words, grown by 8 display units
    on each side, its left and top edges clamped at 0. */
module ItemFrames {
  import opened Wrappers
  import opened Words
  import opened MenuSegmenter

  const FramePadding: real := 8.0

  datatype Frame = Frame(x: real, y: real, width: real, height: real)

  function Max(a: real, b: real): real {
    if a < b then b else a
  }

  /** `Math.min(...s)` on a non-empty list: a member of `s` no larger than
      any other. */
  function MinOf(s: seq<real>): (m: real)
    requires |s| > 0
    ensures m in s
    ensures forall i :: 0 <= i < |s| ==> m <= s[i]
  {
    if |s| == 1 then s[0]
    else
      var rest := MinOf(s[1..]);
      if s[0] <= rest then s[0] else rest
  }

  /** `Math.max(...s)` on a non-empty list: a member of `s` no smaller than
      any other. */
  function MaxOf(s: seq<real>): (m: real)
    requires |s| > 0
    ensures m in s
    ensures forall i :: 0 <= i < |s| ==> s[i] <= m
  {
    if |s| == 1 then s[0]
    else
      var rest := MaxOf(s[1..]);
      if s[0] >= rest then s[0] else rest
  }

  /** `[...priceModifier, ...title, ...price, ...description]` */
  function ItemWords(item: MenuItem<WordRect>): seq<WordRect> {
    item.priceModifier + item.title + item.price + item.description
  }

  function Lefts(ws: seq<WordRect>): seq<real> {
    seq(|ws|, i requires 0 <= i < |ws| => ws[i].x)
  }

  function Tops(ws: seq<WordRect>): seq<real> {
    seq(|ws|, i requires 0 <= i < |ws| => ws[i].y)
  }

  function Rights(ws: seq<WordRect>): seq<real> {
    seq(|ws|, i requires 0 <= i < |ws| => ws[i].x + ws[i].width)
  }

  function Bottoms(ws: seq<WordRect>): seq<real> {
    seq(|ws|, i requires 0 <= i < |ws| => ws[i].y + ws[i].height)
  }

  /** `f` holds `w` with at least 8 units to spare on the right and bottom,
      and on the left and top unless clamped at 0. */
  predicate Encloses(f: Frame, w: WordRect) {
    && f.x <= Max(0.0, w.x - FramePadding)
    && f.y <= Max(0.0, w.y - FramePadding)
    && w.x + w.width + FramePadding <= f.x + f.width
    && w.y + w.height + FramePadding <= f.y + f.height
  }

  /** The padded bounds of a non-empty list of words. It starts at a
      non-negative point, encloses every word, and its left and top edges are
      tight: each lies 8 units before some word or at 0. */
  function FrameOf(ws: seq<WordRect>): (f: Frame)
    requires |ws| > 0
    ensures f.x >= 0.0 && f.y >= 0.0
    ensures forall i :: 0 <= i < |ws| ==> Encloses(f, ws[i])
    ensures exists i :: 0 <= i < |ws| && f.x == Max(0.0, ws[i].x - FramePadding)
    ensures exists i :: 0 <= i < |ws| && f.y == Max(0.0, ws[i].y - FramePadding)
    ensures f.width == MaxOf(Rights(ws)) - MinOf(Lefts(ws)) + 2.0 * FramePadding
    ensures f.height == MaxOf(Bottoms(ws)) - MinOf(Tops(ws)) + 2.0 * FramePadding
  {
    var minX := MinOf(Lefts(ws));
    var minY := MinOf(Tops(ws));
    var maxX := MaxOf(Rights(ws));
    var maxY := MaxOf(Bottoms(ws));
    var f := Frame(Max(0.0, minX - FramePadding), Max(0.0, minY - FramePadding),
                   maxX - minX + FramePadding * 2.0, maxY - minY + FramePadding * 2.0);
    assert forall i :: 0 <= i < |ws| ==> Encloses(f, ws[i]) by {
      forall i | 0 <= i < |ws| ensures Encloses(f, ws[i]) {
        assert Lefts(ws)[i] == ws[i].x && Tops(ws)[i] == ws[i].y;
        assert Rights(ws)[i] == ws[i].x + ws[i].width;
        assert Bottoms(ws)[i] == ws[i].y + ws[i].height;
      }
    }
    f
  }

  /** The frame of one item; none for an item without words, which the
      drawing loop skips. A frame encloses every word of its item. */
  function ItemFrame(item: MenuItem<WordRect>): (r: Option<Frame>)
    ensures r.None? <==> ItemWords(item) == []
    ensures r.Some? ==> r.value.x >= 0.0 && r.value.y >= 0.0
    ensures r.Some? ==> forall w :: w in ItemWords(item) ==> Encloses(r.value, w)
  {
    var ws := ItemWords(item);
    if ws == [] then None else Some(FrameOf(ws))
  }

  /** Word `j` is leftmost and word `i` rightmost, `f`'s left edge lies 8
      units before word `j` or at 0, and `f` is as wide as the words span
      from `j`'s left edge to `i`'s right edge, plus 8 units on each side. */
  predicate HorizontalExtent(ws: seq<WordRect>, f: Frame, i: int, j: int) {
    && 0 <= i < |ws| && 0 <= j < |ws|
    && (forall k :: 0 <= k < |ws| ==> ws[j].x <= ws[k].x && ws[k].x + ws[k].width <= ws[i].x + ws[i].width)
    && f.x == Max(0.0, ws[j].x - FramePadding)
    && f.width == ws[i].x + ws[i].width - ws[j].x + 2.0 * FramePadding
  }

  /** The same vertically: word `j` is topmost and word `i` bottom-most. */
  predicate VerticalExtent(ws: seq<WordRect>, f: Frame, i: int, j: int) {
    && 0 <= i < |ws| && 0 <= j < |ws|
    && (forall k :: 0 <= k < |ws| ==> ws[j].y <= ws[k].y && ws[k].y + ws[k].height <= ws[i].y + ws[i].height)
    && f.y == Max(0.0, ws[j].y - FramePadding)
    && f.height == ws[i].y + ws[i].height - ws[j].y + 2.0 * FramePadding
  }

  /** The frame keeps the words' full extent plus 8 units on each side
      whether or not its left or top edge was clamped at 0. Unclamped, its
      right edge lies 8 units past the rightmost word; clamped, it sticks out
      further on the right. The same holds vertically. */
  lemma FrameFarEdges(ws: seq<WordRect>)
    requires |ws| > 0
    ensures exists i, j :: HorizontalExtent(ws, FrameOf(ws), i, j)
    ensures exists i, j :: VerticalExtent(ws, FrameOf(ws), i, j)
  {
    var i, j := HorizontalSpan(ws);
    var i', j' := VerticalSpan(ws);
  }

  lemma HorizontalSpan(ws: seq<WordRect>) returns (i: nat, j: nat)
    requires |ws| > 0
    ensures HorizontalExtent(ws, FrameOf(ws), i, j)
  {
    i := FarIndex(Rights(ws));
    j := NearIndex(Lefts(ws));
    assert Rights(ws)[i] == ws[i].x + ws[i].width && Lefts(ws)[j] == ws[j].x;
    forall k | 0 <= k < |ws|
      ensures ws[j].x <= ws[k].x && ws[k].x + ws[k].width <= ws[i].x + ws[i].width
    {
      assert Lefts(ws)[k] == ws[k].x && Rights(ws)[k] == ws[k].x + ws[k].width;
    }
  }

  lemma VerticalSpan(ws: seq<WordRect>) returns (i: nat, j: nat)
    requires |ws| > 0
    ensures VerticalExtent(ws, FrameOf(ws), i, j)
  {
    i := FarIndex(Bottoms(ws));
    j := NearIndex(Tops(ws));
    assert Bottoms(ws)[i] == ws[i].y + ws[i].height && Tops(ws)[j] == ws[j].y;
    forall k | 0 <= k < |ws|
      ensures ws[j].y <= ws[k].y && ws[k].y + ws[k].height <= ws[i].y + ws[i].height
    {
      assert Tops(ws)[k] == ws[k].y && Bottoms(ws)[k] == ws[k].y + ws[k].height;
    }
  }

  /** The position of `MaxOf(s)` in `s`. */
  lemma FarIndex(s: seq<real>) returns (i: nat)
    requires |s| > 0
    ensures i < |s| && s[i] == MaxOf(s)
  {
    i :| 0 <= i < |s| && s[i] == MaxOf(s);
  }

  /** The position of `MinOf(s)` in `s`. */
  lemma NearIndex(s: seq<real>) returns (i: nat)
    requires |s| > 0
    ensures i < |s| && s[i] == MinOf(s)
  {
    i :| 0 <= i < |s| && s[i] == MinOf(s);
  }

  /** Every item the segmenter returns has a title, so every one of them is
      framed. */
  lemma {:induction false} EverySegmentedItemFramed(words: seq<WordRect>)
    ensures forall it :: it in Segment(words) ==> ItemFrame(it).Some?
  {
    forall it | it in Segment(words) ensures ItemFrame(it).Some? {
      assert |it.title| > 0;
      assert |ItemWords(it)| >= |it.title|;
    }
  }
}
