/** Step 3 of `drawHighlights` (src/App.tsx): each line is sorted by `x` and
    cut into blocks, maximal runs of neighbouring rectangles of one category.
    Descriptions, titles and price modifiers merge into one block per run;
    every price (and every rectangle of a category the client does not know)
    stays a block of its own. */
module BlockMerger {
  import opened Wrappers
  import opened Words
  import opened Sorting

  datatype Block = Block(category: Category, words: seq<WordRect>)

  /** `shouldMerge`: the categories that are drawn as one run. */
  predicate Merges(c: Category) {
    c == Description || c == Title || c == PriceModifier
  }

  /** The blocks after one more rectangle: it extends the last block when that
      block has its category and the category merges, and opens a block
      otherwise. */
  function MergeStep(bs: seq<Block>, r: WordRect): seq<Block> {
    if bs != [] && bs[|bs| - 1].category == r.category && Merges(r.category) then
      bs[..|bs| - 1] + [Block(r.category, bs[|bs| - 1].words + [r])]
    else bs + [Block(r.category, [r])]
  }

  /** The blocks of a line already in left-to-right order. */
  function MergeRun(s: seq<WordRect>): seq<Block> {
    if s == [] then [] else MergeStep(MergeRun(s[..|s| - 1]), s[|s| - 1])
  }

  /** The words of all blocks, block after block. */
  function Concat(bs: seq<Block>): seq<WordRect> {
    if bs == [] then [] else Concat(bs[..|bs| - 1]) + bs[|bs| - 1].words
  }

  /** What a cut into blocks promises: every block holds words, all of its
      own category; a block of a category that does not merge holds exactly
      one word; and two neighbouring blocks of the same category occur only
      for a category that does not merge, so every merging run is maximal. */
  predicate WellFormed(bs: seq<Block>) {
    && (forall k :: 0 <= k < |bs| ==> |bs[k].words| > 0)
    && (forall k, i :: 0 <= k < |bs| && 0 <= i < |bs[k].words| ==> bs[k].words[i].category == bs[k].category)
    && (forall k :: 0 <= k < |bs| && !Merges(bs[k].category) ==> |bs[k].words| == 1)
    && (forall k :: 0 < k < |bs| && bs[k - 1].category == bs[k].category ==> !Merges(bs[k].category))
  }

  /** The merging loop of one line: the line is sorted by `x`, then walked
      with a current block that is pushed whenever a new one starts. */
  method MergeLine(line: seq<WordRect>) returns (blocks: seq<Block>)
    ensures blocks == MergeRun(SortByKey(line, Horizontal))
  {
    var sortedLine := SortByKey(line, Horizontal);
    blocks := MergeSorted(sortedLine);
  }

  /** The walk itself, over a line already in left-to-right order. */
  method MergeSorted(sortedLine: seq<WordRect>) returns (blocks: seq<Block>)
    ensures blocks == MergeRun(sortedLine)
  {
    blocks := [];
    var currentBlock: Option<Block> := None;
    for i := 0 to |sortedLine|
      invariant Pending(blocks, currentBlock) == MergeRun(sortedLine[..i])
      invariant currentBlock.None? ==> blocks == []
    {
      var rect := sortedLine[i];
      assert sortedLine[..i + 1][..i] == sortedLine[..i];
      var shouldMerge := Merges(rect.category);
      if currentBlock.Some? && currentBlock.value.category == rect.category && shouldMerge {
        PendingExtend(blocks, currentBlock.value, rect);
        currentBlock := Some(Block(rect.category, currentBlock.value.words + [rect]));
      } else {
        PendingOpen(blocks, currentBlock, rect);
        if currentBlock.Some? {
          blocks := blocks + [currentBlock.value];
        }
        currentBlock := Some(Block(rect.category, [rect]));
      }
    }
    if currentBlock.Some? {
      blocks := blocks + [currentBlock.value];
    }
    assert sortedLine[..|sortedLine|] == sortedLine;
  }

  /** The blocks pushed so far followed by the one still open. */
  ghost function Pending(blocks: seq<Block>, current: Option<Block>): seq<Block> {
    if current.Some? then blocks + [current.value] else blocks
  }

  lemma PendingExtend(blocks: seq<Block>, b: Block, r: WordRect)
    requires b.category == r.category && Merges(r.category)
    ensures MergeStep(Pending(blocks, Some(b)), r) == Pending(blocks, Some(Block(r.category, b.words + [r])))
  {
    assert (blocks + [b])[..|blocks|] == blocks;
  }

  lemma PendingOpen(blocks: seq<Block>, current: Option<Block>, r: WordRect)
    requires current.None? ==> blocks == []
    requires !(current.Some? && current.value.category == r.category && Merges(r.category))
    ensures MergeStep(Pending(blocks, current), r) == Pending(Pending(blocks, current), Some(Block(r.category, [r])))
  {
  }

  lemma ConcatAppend(bs: seq<Block>, b: Block)
    ensures Concat(bs + [b]) == Concat(bs) + b.words
  {
    assert (bs + [b])[..|bs|] == bs;
  }

  lemma MergeStepKeepsWords(bs: seq<Block>, r: WordRect)
    ensures Concat(MergeStep(bs, r)) == Concat(bs) + [r]
  {
    if bs != [] && bs[|bs| - 1].category == r.category && Merges(r.category) {
      var init := bs[..|bs| - 1];
      var last := bs[|bs| - 1];
      assert bs == init + [last];
      ConcatAppend(init, last);
      ConcatAppend(init, Block(r.category, last.words + [r]));
    } else {
      ConcatAppend(bs, Block(r.category, [r]));
    }
  }

  /** Merging loses, adds and reorders nothing: the blocks read left to right
      give back the line. */
  lemma {:induction false} MergeRunKeepsWords(s: seq<WordRect>)
    ensures Concat(MergeRun(s)) == s
  {
    if s != [] {
      var p, r := s[..|s| - 1], s[|s| - 1];
      calc {
        Concat(MergeRun(s));
        Concat(MergeStep(MergeRun(p), r));
        { MergeStepKeepsWords(MergeRun(p), r); }
        Concat(MergeRun(p)) + [r];
        { MergeRunKeepsWords(p); }
        p + [r];
        s;
      }
    }
  }

  lemma MergeStepWellFormed(bs: seq<Block>, r: WordRect)
    requires WellFormed(bs)
    ensures WellFormed(MergeStep(bs, r))
  {
    var t := MergeStep(bs, r);
    if bs != [] && bs[|bs| - 1].category == r.category && Merges(r.category) {
      var n := |bs| - 1;
      assert |t| == |bs| && t[n] == Block(r.category, bs[n].words + [r]);
      assert forall k :: 0 <= k < n ==> t[k] == bs[k];
      forall k, i | 0 <= k < |t| && 0 <= i < |t[k].words| ensures t[k].words[i].category == t[k].category {
        if k == n && i == |bs[n].words| {
          assert t[k].words[i] == r;
        } else {
          assert t[k].words[i] == bs[k].words[i];
        }
      }
    } else {
      assert t == bs + [Block(r.category, [r])];
      assert forall k :: 0 <= k < |bs| ==> t[k] == bs[k];
    }
  }

  /** Every line is cut into well-formed blocks. */
  lemma {:induction false} MergeRunWellFormed(s: seq<WordRect>)
    ensures WellFormed(MergeRun(s))
  {
    if s != [] {
      MergeRunWellFormed(s[..|s| - 1]);
      MergeStepWellFormed(MergeRun(s[..|s| - 1]), s[|s| - 1]);
    }
  }

  /** A line of `n` words makes at most `n` blocks, and a line with at least
      one word makes at least one. */
  lemma {:induction false} MergeRunCount(s: seq<WordRect>)
    ensures |MergeRun(s)| <= |s|
    ensures |s| > 0 ==> |MergeRun(s)| > 0
  {
    if s != [] {
      MergeRunCount(s[..|s| - 1]);
    }
  }

  /** A run of prices stays one block per price. */
  lemma {:induction false} PricesStaySeparate(s: seq<WordRect>)
    requires forall i :: 0 <= i < |s| ==> s[i].category == Price
    ensures |MergeRun(s)| == |s|
  {
    if s != [] {
      PricesStaySeparate(s[..|s| - 1]);
    }
  }

  /** A line whose words all share one merging category is a single block. */
  lemma {:induction false} UniformLineIsOneBlock(s: seq<WordRect>, c: Category)
    requires |s| > 0 && Merges(c)
    requires forall i :: 0 <= i < |s| ==> s[i].category == c
    ensures MergeRun(s) == [Block(c, s)]
  {
    if |s| == 1 {
      assert s[..0] == [] && s == [s[0]];
      assert MergeRun(s) == MergeStep([], s[0]);
    } else {
      UniformLineIsOneBlock(s[..|s| - 1], c);
      assert s[..|s| - 1] + [s[|s| - 1]] == s;
    }
  }
}
