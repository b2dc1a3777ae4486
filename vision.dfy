/** The first half of the image analysis endpoint (api/analyze-image-gpt.js):
    the text-detection pages returned by the Vision service are walked page
    by page, block by block and line by line, and every line whose text is
    not blank becomes one text block. Every field of the service's answer may
    be absent, so every field is an `Option`; a field the code reads without
    a guard and finds absent makes JavaScript throw a `TypeError`, modelled
    as a `Failure`. */
module VisionBlocks {
  import opened Wrappers
  import opened Text

  /** A corner of a bounding box; the service leaves out a coordinate that is
      zero, so each may be absent. */
  datatype Vertex = Vertex(x: Option<int>, y: Option<int>)

  datatype BoundingBox = BoundingBox(vertices: Option<seq<Vertex>>)

  datatype VisionWord = VisionWord(text: Option<string>, confidence: Option<real>)

  datatype VisionLine = VisionLine(words: Option<seq<VisionWord>>, boundingBox: Option<BoundingBox>)

  datatype VisionBlock = VisionBlock(lines: Option<seq<VisionLine>>)

  datatype Page = Page(blocks: Option<seq<VisionBlock>>)

  /** What the walk produces for one line: its trimmed text, the first and
      third corners of its box (copied as they are, absent coordinates
      included), and the mean confidence of its words. */
  datatype TextBlock = TextBlock(text: string, x0: Option<int>, y0: Option<int>, x1: Option<int>, y1: Option<int>, confidence: real)

  /** The exception JavaScript raises on reading a property of `undefined`. */
  datatype Fault = TypeError

  /** `word.text` as `join` sees it: an absent text joins as the empty string. */
  function WordText(w: VisionWord): string {
    if w.text.Some? then w.text.value else ""
  }

  /** The texts of the words, `line.words.map(word => word.text)`. */
  function WordTexts(words: seq<VisionWord>): (r: seq<string>)
    ensures |r| == |words|
    ensures forall i :: 0 <= i < |words| ==> r[i] == WordText(words[i])
  {
    if words == [] then [] else [WordText(words[0])] + WordTexts(words[1..])
  }

  /** `line.words.map(word => word.text).join(' ')` */
  function LineText(words: seq<VisionWord>): (r: string)
    ensures words == [] ==> r == []
    ensures |words| == 1 ==> r == WordText(words[0])
  {
    Join(WordTexts(words), " ")
  }

  /** One more word adds a single space and its text to the line's text. */
  lemma LineTextAppend(words: seq<VisionWord>, w: VisionWord)
    requires |words| > 0
    ensures LineText(words + [w]) == LineText(words) + " " + WordText(w)
  {
    var a := WordTexts(words + [w]);
    var b := WordTexts(words) + [WordText(w)];
    assert |a| == |b|;
    forall i | 0 <= i < |a| ensures a[i] == b[i] {
      assert (words + [w])[i] == if i < |words| then words[i] else w;
    }
    assert a == b;
    JoinAppend(WordTexts(words), WordText(w), " ");
  }

  /** `word.confidence || 0` */
  function WordConfidence(w: VisionWord): real {
    if w.confidence.Some? then w.confidence.value else 0.0
  }

  /** `words.reduce((sum, word) => sum + (word.confidence || 0), 0)` */
  function ConfidenceSum(words: seq<VisionWord>): real {
    if words == [] then 0.0 else ConfidenceSum(words[..|words| - 1]) + WordConfidence(words[|words| - 1])
  }

  /** The box can be read: it is there, has its vertices, and has a third
      one. */
  predicate HasCorners(bb: Option<BoundingBox>) {
    bb.Some? && bb.value.vertices.Some? && |bb.value.vertices.value| >= 3
  }

  /** One line of the walk. A line without words, or whose joined text is
      blank, gives nothing; a line with text but no readable box throws; any
      other line gives a block with non-empty, trimmed text. */
  function LineBlock(line: VisionLine): (r: Result<Option<TextBlock>, Fault>)
    ensures r == Success(None) <==> line.words.None? || Trim(LineText(line.words.value)) == []
    ensures r.Failure? <==> line.words.Some? && Trim(LineText(line.words.value)) != [] && !HasCorners(line.boundingBox)
    ensures r.Success? && r.value.Some? ==>
              && r.value.value.text == Trim(LineText(line.words.value))
              && r.value.value.text != []
              && |line.words.value| > 0
  {
    if line.words.None? then Success(None)
    else
      var words := line.words.value;
      var text := Trim(LineText(words));
      if text == [] then Success(None)
      else if !HasCorners(line.boundingBox) then Failure(TypeError)
      else
        var vs := line.boundingBox.value.vertices.value;
        Success(Some(TextBlock(text, vs[0].x, vs[0].y, vs[2].x, vs[2].y,
                               ConfidenceSum(words) / (|words| as real))))
  }

  /** The lines of a block; none when `block.lines` is absent. */
  function LinesOf(b: VisionBlock): seq<VisionLine> {
    if b.lines.Some? then b.lines.value else []
  }

  /** The lines of a list of blocks, block after block. */
  function BlockLines(bs: seq<VisionBlock>): seq<VisionLine> {
    if bs == [] then [] else BlockLines(bs[..|bs| - 1]) + LinesOf(bs[|bs| - 1])
  }

  /** The lines of a page; none when `page.blocks` is absent. */
  function PageLinesOf(p: Page): seq<VisionLine> {
    if p.blocks.Some? then BlockLines(p.blocks.value) else []
  }

  /** The lines of a list of pages, in the walk's order. */
  function PageLines(ps: seq<Page>): seq<VisionLine> {
    if ps == [] then [] else PageLines(ps[..|ps| - 1]) + PageLinesOf(ps[|ps| - 1])
  }

  /** The walk after one more line: a fault stays a fault, and otherwise the
      line's block, if any, is pushed. */
  function CollectStep(acc: Result<seq<TextBlock>, Fault>, line: VisionLine): Result<seq<TextBlock>, Fault> {
    if acc.Failure? then acc
    else match LineBlock(line)
      case Failure(e) => Failure(e)
      case Success(None) => acc
      case Success(Some(b)) => Success(acc.value + [b])
  }

  /** The walk over `ls` continued from `acc`. */
  function Resume(acc: Result<seq<TextBlock>, Fault>, ls: seq<VisionLine>): Result<seq<TextBlock>, Fault> {
    if ls == [] then acc else CollectStep(Resume(acc, ls[..|ls| - 1]), ls[|ls| - 1])
  }

  /** The blocks of a list of lines, or the fault that stopped the walk. */
  function Collect(ls: seq<VisionLine>): Result<seq<TextBlock>, Fault> {
    Resume(Success([]), ls)
  }

  /** The three nested loops that fill `allBlocks`, one method per level: the
      pages. The first line that throws ends the walk (and, in the endpoint,
      the request). */
  method FlattenPages(pages: seq<Page>) returns (r: Result<seq<TextBlock>, Fault>)
    ensures r == Collect(PageLines(pages))
  {
    var allBlocks: seq<TextBlock> := [];
    for i := 0 to |pages|
      invariant Resume(Success([]), PageLines(pages[..i])) == Success(allBlocks)
    {
      var page := pages[i];
      ResumePagesStep(Success([]), pages, i);
      if page.blocks.Some? {
        var res := FlattenBlocks(page.blocks.value, allBlocks);
        if res.Failure? {
          ResumePagesStop(Success([]), pages, i, res.error);
          return res;
        }
        allBlocks := res.value;
      }
    }
    assert pages[..|pages|] == pages;
    r := Success(allBlocks);
  }

  /** The middle loop: the blocks of one page, continuing `allBlocks`. */
  method FlattenBlocks(blocks: seq<VisionBlock>, allBlocks: seq<TextBlock>) returns (r: Result<seq<TextBlock>, Fault>)
    ensures r == Resume(Success(allBlocks), BlockLines(blocks))
  {
    var acc := allBlocks;
    for j := 0 to |blocks|
      invariant Resume(Success(allBlocks), BlockLines(blocks[..j])) == Success(acc)
    {
      var block := blocks[j];
      ResumeBlocksStep(Success(allBlocks), blocks, j);
      if block.lines.Some? {
        var res := FlattenLines(block.lines.value, acc);
        if res.Failure? {
          ResumeBlocksStop(Success(allBlocks), blocks, j, res.error);
          return res;
        }
        acc := res.value;
      }
    }
    assert blocks[..|blocks|] == blocks;
    r := Success(acc);
  }

  /** The inner loop: the lines of one block, continuing `allBlocks`. */
  method FlattenLines(lines: seq<VisionLine>, allBlocks: seq<TextBlock>) returns (r: Result<seq<TextBlock>, Fault>)
    ensures r == Resume(Success(allBlocks), lines)
  {
    var acc := allBlocks;
    for k := 0 to |lines|
      invariant Resume(Success(allBlocks), lines[..k]) == Success(acc)
    {
      var line := lines[k];
      assert lines[..k + 1][..k] == lines[..k];
      var b := LineBlock(line);
      if b.Failure? {
        assert lines[..k + 1] + lines[k + 1..] == lines;
        ResumeSplit(Success(allBlocks), lines[..k + 1], lines[k + 1..]);
        ResumeFailure(b.error, lines[k + 1..]);
        return Failure(b.error);
      }
      if b.value.Some? {
        acc := acc + [b.value.value];
      }
    }
    assert lines[..|lines|] == lines;
    r := Success(acc);
  }

  /** Walking `a` and then `b` is walking `a + b`. */
  lemma {:induction false} ResumeSplit(acc: Result<seq<TextBlock>, Fault>, a: seq<VisionLine>, b: seq<VisionLine>)
    ensures Resume(acc, a + b) == Resume(Resume(acc, a), b)
  {
    if b == [] {
      assert a + b == a;
    } else {
      var init := b[..|b| - 1];
      var last := b[|b| - 1];
      ResumeSplit(acc, a, init);
      assert (a + b)[..|a + b| - 1] == a + init;
      assert (a + b)[|a + b| - 1] == last;
      assert Resume(acc, a + b) == CollectStep(Resume(acc, a + init), last);
      assert Resume(Resume(acc, a), b) == CollectStep(Resume(Resume(acc, a), init), last);
    }
  }

  /** The walk over the lines of the first `j + 1` blocks continues the walk
      over the first `j` with the lines of block `j`. */
  lemma ResumeBlocksStep(acc: Result<seq<TextBlock>, Fault>, blocks: seq<VisionBlock>, j: nat)
    requires j < |blocks|
    ensures Resume(acc, BlockLines(blocks[..j + 1])) == Resume(Resume(acc, BlockLines(blocks[..j])), LinesOf(blocks[j]))
  {
    assert blocks[..j + 1][..j] == blocks[..j];
    assert BlockLines(blocks[..j + 1]) == BlockLines(blocks[..j]) + LinesOf(blocks[j]);
    ResumeSplit(acc, BlockLines(blocks[..j]), LinesOf(blocks[j]));
  }

  /** A fault within the first `j + 1` blocks is the fault of all of them. */
  lemma ResumeBlocksStop(acc: Result<seq<TextBlock>, Fault>, blocks: seq<VisionBlock>, j: nat, e: Fault)
    requires j < |blocks| && Resume(acc, BlockLines(blocks[..j + 1])) == Failure(e)
    ensures Resume(acc, BlockLines(blocks)) == Failure(e)
  {
    assert blocks[..j + 1] + blocks[j + 1..] == blocks;
    ResumeBlocksFailFrom(acc, blocks[..j + 1], blocks[j + 1..], e);
  }

  lemma ResumePagesStep(acc: Result<seq<TextBlock>, Fault>, pages: seq<Page>, i: nat)
    requires i < |pages|
    ensures Resume(acc, PageLines(pages[..i + 1])) == Resume(Resume(acc, PageLines(pages[..i])), PageLinesOf(pages[i]))
  {
    assert pages[..i + 1][..i] == pages[..i];
    assert PageLines(pages[..i + 1]) == PageLines(pages[..i]) + PageLinesOf(pages[i]);
    ResumeSplit(acc, PageLines(pages[..i]), PageLinesOf(pages[i]));
  }

  lemma ResumePagesStop(acc: Result<seq<TextBlock>, Fault>, pages: seq<Page>, i: nat, e: Fault)
    requires i < |pages| && Resume(acc, PageLines(pages[..i + 1])) == Failure(e)
    ensures Resume(acc, PageLines(pages)) == Failure(e)
  {
    assert pages[..i + 1] + pages[i + 1..] == pages;
    ResumePagesFailFrom(acc, pages[..i + 1], pages[i + 1..], e);
  }

  lemma ResumeBlocksFailFrom(acc: Result<seq<TextBlock>, Fault>, front: seq<VisionBlock>, back: seq<VisionBlock>, e: Fault)
    requires Resume(acc, BlockLines(front)) == Failure(e)
    ensures Resume(acc, BlockLines(front + back)) == Failure(e)
  {
    BlockLinesSplit(front, back);
    ResumeSplit(acc, BlockLines(front), BlockLines(back));
    ResumeFailure(e, BlockLines(back));
  }

  lemma ResumePagesFailFrom(acc: Result<seq<TextBlock>, Fault>, front: seq<Page>, back: seq<Page>, e: Fault)
    requires Resume(acc, PageLines(front)) == Failure(e)
    ensures Resume(acc, PageLines(front + back)) == Failure(e)
  {
    PageLinesSplit(front, back);
    ResumeSplit(acc, PageLines(front), PageLines(back));
    ResumeFailure(e, PageLines(back));
  }

  /** Once a line has thrown, nothing after it changes the outcome. */
  lemma {:induction false} ResumeFailure(e: Fault, b: seq<VisionLine>)
    ensures Resume(Failure(e), b) == Failure(e)
  {
    if b != [] {
      ResumeFailure(e, b[..|b| - 1]);
    }
  }

  lemma {:induction false} BlockLinesSplit(a: seq<VisionBlock>, b: seq<VisionBlock>)
    ensures BlockLines(a + b) == BlockLines(a) + BlockLines(b)
  {
    if b != [] {
      var init, last := b[..|b| - 1], b[|b| - 1];
      assert (a + b)[..|a + b| - 1] == a + init;
      assert (a + b)[|a + b| - 1] == last;
      calc {
        BlockLines(a + b);
        BlockLines(a + init) + LinesOf(last);
        { BlockLinesSplit(a, init); }
        BlockLines(a) + BlockLines(init) + LinesOf(last);
        BlockLines(a) + (BlockLines(init) + LinesOf(last));
        BlockLines(a) + BlockLines(b);
      }
    } else {
      assert a + b == a;
    }
  }

  lemma {:induction false} PageLinesSplit(a: seq<Page>, b: seq<Page>)
    ensures PageLines(a + b) == PageLines(a) + PageLines(b)
  {
    if b != [] {
      var init, last := b[..|b| - 1], b[|b| - 1];
      assert (a + b)[..|a + b| - 1] == a + init;
      assert (a + b)[|a + b| - 1] == last;
      calc {
        PageLines(a + b);
        PageLines(a + init) + PageLinesOf(last);
        { PageLinesSplit(a, init); }
        PageLines(a) + PageLines(init) + PageLinesOf(last);
        PageLines(a) + (PageLines(init) + PageLinesOf(last));
        PageLines(a) + PageLines(b);
      }
    } else {
      assert a + b == a;
    }
  }

  /** The walk throws exactly when one of the lines throws. */
  lemma {:induction false} CollectFailsIff(ls: seq<VisionLine>)
    ensures Collect(ls).Failure? <==> exists k :: 0 <= k < |ls| && LineBlock(ls[k]).Failure?
  {
    if ls != [] {
      var p, l := ls[..|ls| - 1], ls[|ls| - 1];
      CollectFailsIff(p);
      assert Collect(ls) == CollectStep(Collect(p), l);
      CollectStepFails(Collect(p), l);
      if Collect(p).Failure? {
        var k :| 0 <= k < |p| && LineBlock(p[k]).Failure?;
        assert ls[k] == p[k];
        assert 0 <= k < |ls| && LineBlock(ls[k]).Failure?;
      } else if LineBlock(l).Failure? {
        assert 0 <= |ls| - 1 < |ls| && LineBlock(ls[|ls| - 1]).Failure?;
      } else {
        assert Collect(ls).Success?;
        forall k | 0 <= k < |ls| ensures LineBlock(ls[k]).Success? {
          if k < |p| {
            assert p[k] == ls[k];
          }
        }
      }
    }
  }

  /** One step of the walk fails exactly when the walk had already failed or
      the line throws. */
  lemma CollectStepFails(acc: Result<seq<TextBlock>, Fault>, l: VisionLine)
    ensures CollectStep(acc, l).Failure? <==> acc.Failure? || LineBlock(l).Failure?
  {
  }

  /** A finished walk gives at most one block per line, and every block is
      the block of one of the lines. */
  lemma {:induction false} CollectedBlocks(ls: seq<VisionLine>)
    requires Collect(ls).Success?
    ensures |Collect(ls).value| <= |ls|
    ensures forall b :: b in Collect(ls).value ==>
              exists k :: 0 <= k < |ls| && LineBlock(ls[k]) == Success(Some(b))
  {
    if ls != [] {
      var p, l := ls[..|ls| - 1], ls[|ls| - 1];
      assert Collect(ls) == CollectStep(Collect(p), l);
      CollectStepGrows(Collect(p), l);
      CollectedBlocks(p);
      forall b | b in Collect(ls).value
        ensures exists k :: 0 <= k < |ls| && LineBlock(ls[k]) == Success(Some(b))
      {
        if b in Collect(p).value {
          var k :| 0 <= k < |p| && LineBlock(p[k]) == Success(Some(b));
          assert ls[k] == p[k];
        } else {
          assert LineBlock(ls[|ls| - 1]) == Success(Some(b));
        }
      }
    }
  }

  /** The block a line contributes when it has one: its `LineBlock`. */
  function OwnBlock(l: VisionLine): seq<TextBlock> {
    if LineBlock(l).Success? && LineBlock(l).value.Some? then [LineBlock(l).value.value] else []
  }

  /** The blocks of the lines that have one, in line order: a reference for
      the walk, built from the front. */
  function LineBlocks(ls: seq<VisionLine>): seq<TextBlock> {
    if ls == [] then [] else OwnBlock(ls[0]) + LineBlocks(ls[1..])
  }

  lemma {:induction false} LineBlocksSnoc(ls: seq<VisionLine>)
    requires |ls| > 0
    ensures LineBlocks(ls) == LineBlocks(ls[..|ls| - 1]) + OwnBlock(ls[|ls| - 1])
  {
    if |ls| == 1 {
      assert ls[..0] == [];
      assert LineBlocks(ls) == OwnBlock(ls[0]) + LineBlocks(ls[1..]);
    } else {
      var p := ls[..|ls| - 1];
      assert ls[1..][..|ls| - 2] == p[1..];
      assert ls[1..][|ls| - 2] == ls[|ls| - 1];
      assert p[0] == ls[0];
      LineBlocksSnoc(ls[1..]);
    }
  }

  /** A finished walk yields exactly the blocks of the lines that have one,
      in the order of the lines: nothing is dropped, added or reordered. */
  lemma {:induction false} CollectedInOrder(ls: seq<VisionLine>)
    requires Collect(ls).Success?
    ensures Collect(ls).value == LineBlocks(ls)
  {
    if ls != [] {
      var p, l := ls[..|ls| - 1], ls[|ls| - 1];
      assert Collect(ls) == CollectStep(Collect(p), l);
      CollectStepFails(Collect(p), l);
      CollectedInOrder(p);
      LineBlocksSnoc(ls);
    }
  }

  /** The block of line `k`, if any, is among the reference blocks. */
  lemma {:induction false} OwnBlockListed(ls: seq<VisionLine>, k: nat, b: TextBlock)
    requires k < |ls| && b in OwnBlock(ls[k])
    ensures b in LineBlocks(ls)
  {
    assert LineBlocks(ls) == OwnBlock(ls[0]) + LineBlocks(ls[1..]);
    if k > 0 {
      assert ls[1..][k - 1] == ls[k];
      OwnBlockListed(ls[1..], k - 1, b);
    }
  }

  /** Conversely to `CollectedBlocks`: every line that has a block
      contributes it to a finished walk. */
  lemma CollectedKeepsEveryBlock(ls: seq<VisionLine>)
    requires Collect(ls).Success?
    ensures forall k :: 0 <= k < |ls| && LineBlock(ls[k]).Success? && LineBlock(ls[k]).value.Some? ==>
              LineBlock(ls[k]).value.value in Collect(ls).value
  {
    CollectedInOrder(ls);
    forall k | 0 <= k < |ls| && LineBlock(ls[k]).Success? && LineBlock(ls[k]).value.Some?
      ensures LineBlock(ls[k]).value.value in Collect(ls).value
    {
      assert OwnBlock(ls[k]) == [LineBlock(ls[k]).value.value];
      OwnBlockListed(ls, k, LineBlock(ls[k]).value.value);
    }
  }

  /** A successful step keeps the blocks so far and adds at most the line's
      own block. */
  lemma CollectStepGrows(acc: Result<seq<TextBlock>, Fault>, l: VisionLine)
    requires CollectStep(acc, l).Success?
    ensures acc.Success? && |CollectStep(acc, l).value| <= |acc.value| + 1
    ensures forall b :: b in CollectStep(acc, l).value ==> b in acc.value || LineBlock(l) == Success(Some(b))
  {
  }

  lemma {:induction false} ConfidenceSumBounds(words: seq<VisionWord>)
    requires forall i :: 0 <= i < |words| ==> 0.0 <= WordConfidence(words[i]) <= 1.0
    ensures 0.0 <= ConfidenceSum(words) <= |words| as real
  {
    if words != [] {
      ConfidenceSumBounds(words[..|words| - 1]);
    }
  }

  /** When every word's confidence lies between 0 and 1, so does the line's:
      it is the mean of the words' confidences, a missing one counting as 0. */
  lemma LineConfidenceBounds(line: VisionLine)
    requires LineBlock(line).Success? && LineBlock(line).value.Some?
    requires forall i :: 0 <= i < |line.words.value| ==> 0.0 <= WordConfidence(line.words.value[i]) <= 1.0
    ensures LineBlock(line).value.value.confidence == ConfidenceSum(line.words.value) / (|line.words.value| as real)
    ensures 0.0 <= LineBlock(line).value.value.confidence <= 1.0
  {
    var words := line.words.value;
    ConfidenceSumBounds(words);
    var s := ConfidenceSum(words);
    var n := |words| as real;
    assert LineBlock(line).value.value.confidence == s / n;
    MeanBounds(s, n);
  }

  lemma MeanBounds(s: real, n: real)
    requires 0.0 <= s <= n && n > 0.0
    ensures 0.0 <= s / n <= 1.0
  {
    assert s / n * n == s;
  }

  /** The block's corners are the first and third vertices of the line's
      box. */
  lemma BlockCorners(line: VisionLine)
    requires LineBlock(line).Success? && LineBlock(line).value.Some?
    ensures HasCorners(line.boundingBox)
    ensures var b := LineBlock(line).value.value;
            var vs := line.boundingBox.value.vertices.value;
            b.x0 == vs[0].x && b.y0 == vs[0].y && b.x1 == vs[2].x && b.y1 == vs[2].y
  {
  }

  /** Every block of a finished walk has non-empty text with no whitespace
      left at either end. */
  lemma CollectedTextsTrimmed(ls: seq<VisionLine>)
    requires Collect(ls).Success?
    ensures forall b :: b in Collect(ls).value ==> b.text != [] && Trim(b.text) == b.text
  {
    CollectedBlocks(ls);
    forall b | b in Collect(ls).value ensures b.text != [] && Trim(b.text) == b.text {
      var k :| 0 <= k < |ls| && LineBlock(ls[k]) == Success(Some(b));
      LineBlockTrimmed(ls[k], b);
    }
  }

  /** The text of a line's block is non-empty and already trimmed. */
  lemma LineBlockTrimmed(line: VisionLine, b: TextBlock)
    requires LineBlock(line) == Success(Some(b))
    ensures b.text != [] && Trim(b.text) == b.text
  {
    TrimOfTrimmed(b.text);
  }
}
