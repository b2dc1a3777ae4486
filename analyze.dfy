/** The second half of the image analysis endpoint (api/analyze-image-gpt.js):
    every text block is sent to the text classification endpoint and put in
    the `titles`, `prices` or `descriptions` bucket its answer names; when the
    call fails, a length-and-digit rule decides instead. The answers of the
    classification endpoint are a parameter: `outcome(i)` is what the call
    for the `i`-th block gave. */
module AnalyzeImage {
  import opened Wrappers
  import opened Text
  import opened VisionBlocks
  import ClassifyText

  datatype Bucket = Titles | Prices | Descriptions

  /** What the call to the classification endpoint gave for one block: an OK
      response whose `type` may be absent, a response with a status outside
      200-299, or an exception (from `fetch` or from parsing the body). */
  datatype ClassifyOutcome = Answered(kind: Option<string>) | NotOk | Threw

  /** `{ titles, prices, descriptions }` */
  datatype Buckets = Buckets(titles: seq<TextBlock>, prices: seq<TextBlock>, descriptions: seq<TextBlock>)

  const NoBuckets := Buckets([], [], [])

  /** The fallback rule: a short text (under 10 UTF-16 code units) with an
      ASCII digit is a price, any other text under 30 code units a title, and
      the rest descriptions. A price therefore has fewer than 10 characters,
      a title fewer than 30, and a description at least 15 (a character
      counts twice at most). */
  function FallbackBucket(text: string): (b: Bucket)
    ensures b == Prices <==> HasDigit(text) && Utf16Length(text) < 10
    ensures b == Descriptions <==> Utf16Length(text) >= 30
    ensures b == Prices ==> |text| < 10
    ensures b == Titles ==> |text| < 30
    ensures b == Descriptions ==> |text| >= 15
    ensures |text| >= 30 ==> b == Descriptions
  {
    if HasDigit(text) && Utf16Length(text) < 10 then Prices
    else if Utf16Length(text) < 30 then Titles
    else Descriptions
  }

  /** The bucket a block goes to: the one the answer names, none for an
      answer that names none of the three (the `switch` has no default), and
      the fallback rule's when the call did not succeed. */
  function BucketFor(text: string, outcome: ClassifyOutcome): (r: Option<Bucket>)
    ensures !outcome.Answered? ==> r == Some(FallbackBucket(text))
    ensures outcome.Answered? ==> (r.Some? <==> outcome.kind.Some? && outcome.kind.value in ClassifyText.ValidTypes)
    ensures outcome.Answered? && r == Some(Titles) ==> outcome.kind == Some("title")
    ensures outcome.Answered? && r == Some(Prices) ==> outcome.kind == Some("price")
    ensures outcome.Answered? && r == Some(Descriptions) ==> outcome.kind == Some("description")
  {
    match outcome
    case Answered(kind) =>
      if kind == Some("title") then Some(Titles)
      else if kind == Some("price") then Some(Prices)
      else if kind == Some("description") then Some(Descriptions)
      else None
    case _ => Some(FallbackBucket(text))
  }

  /** The blocks that go to bucket `b`, in input order. */
  function Pick(blocks: seq<TextBlock>, outcome: nat -> ClassifyOutcome, b: Bucket): seq<TextBlock> {
    if blocks == [] then []
    else
      var n := |blocks| - 1;
      Pick(blocks[..n], outcome, b) + (if BucketFor(blocks[n].text, outcome(n)) == Some(b) then [blocks[n]] else [])
  }

  /** The buckets after dispatching every block. */
  function Dispatch(blocks: seq<TextBlock>, outcome: nat -> ClassifyOutcome): Buckets {
    Buckets(Pick(blocks, outcome, Titles), Pick(blocks, outcome, Prices), Pick(blocks, outcome, Descriptions))
  }

  /** The classification loop: one push per block at most. */
  method ClassifyBlocks(blocks: seq<TextBlock>, outcome: nat -> ClassifyOutcome) returns (classified: Buckets)
    ensures classified == Dispatch(blocks, outcome)
  {
    var titles, prices, descriptions := [], [], [];
    for i := 0 to |blocks|
      invariant titles == Pick(blocks[..i], outcome, Titles)
      invariant prices == Pick(blocks[..i], outcome, Prices)
      invariant descriptions == Pick(blocks[..i], outcome, Descriptions)
    {
      var block := blocks[i];
      assert blocks[..i + 1][..i] == blocks[..i];
      match outcome(i) {
        case Answered(kind) =>
          if kind == Some("title") {
            titles := titles + [block];
          } else if kind == Some("price") {
            prices := prices + [block];
          } else if kind == Some("description") {
            descriptions := descriptions + [block];
          }
        case _ =>
          if HasDigit(block.text) && Utf16Length(block.text) < 10 {
            prices := prices + [block];
          } else if Utf16Length(block.text) < 30 {
            titles := titles + [block];
          } else {
            descriptions := descriptions + [block];
          }
      }
    }
    assert blocks[..|blocks|] == blocks;
    classified := Buckets(titles, prices, descriptions);
  }

  /** A block is in bucket `b` exactly when some block at an index whose
      outcome sends it to `b` is that block. */
  lemma {:induction false} PickMembers(blocks: seq<TextBlock>, outcome: nat -> ClassifyOutcome, b: Bucket, x: TextBlock)
    ensures x in Pick(blocks, outcome, b) <==>
            exists i :: 0 <= i < |blocks| && blocks[i] == x && BucketFor(blocks[i].text, outcome(i)) == Some(b)
  {
    if blocks != [] {
      var n := |blocks| - 1;
      var init := blocks[..n];
      var here := BucketFor(blocks[n].text, outcome(n)) == Some(b);
      PickMembers(init, outcome, b, x);
      assert Pick(blocks, outcome, b) == Pick(init, outcome, b) + (if here then [blocks[n]] else []);
      if x in Pick(init, outcome, b) {
        var i :| 0 <= i < n && init[i] == x && BucketFor(init[i].text, outcome(i)) == Some(b);
        assert blocks[i] == x;
      } else if here && x == blocks[n] {
        assert 0 <= n < |blocks| && blocks[n] == x && BucketFor(blocks[n].text, outcome(n)) == Some(b);
      } else {
        forall i | 0 <= i < |blocks| && blocks[i] == x ensures BucketFor(blocks[i].text, outcome(i)) != Some(b) {
          if i < n {
            assert init[i] == x;
          }
        }
      }
    }
  }

  /** `idx` lists the input positions of `picked`. */
  predicate Locates(blocks: seq<TextBlock>, picked: seq<TextBlock>, idx: seq<nat>) {
    && |idx| == |picked|
    && forall k :: 0 <= k < |idx| ==> idx[k] < |blocks| && picked[k] == blocks[idx[k]]
  }

  /** Every block at a position in `idx` was answered with bucket `b`. */
  predicate AnsweredWith(blocks: seq<TextBlock>, outcome: nat -> ClassifyOutcome, b: Bucket, idx: seq<nat>) {
    forall k :: 0 <= k < |idx| ==> idx[k] < |blocks| && BucketFor(blocks[idx[k]].text, outcome(idx[k])) == Some(b)
  }

  predicate Increasing(idx: seq<nat>) {
    forall k, l :: 0 <= k < l < |idx| ==> idx[k] < idx[l]
  }

  /** The input positions of the blocks in bucket `b`: each picked block sits
      at its position and was answered with `b`, and the positions strictly
      increase, so each bucket keeps the blocks' input order. */
  function PickIndices(blocks: seq<TextBlock>, outcome: nat -> ClassifyOutcome, b: Bucket): (idx: seq<nat>)
    ensures Locates(blocks, Pick(blocks, outcome, b), idx)
    ensures AnsweredWith(blocks, outcome, b, idx)
    ensures Increasing(idx)
    ensures forall k :: 0 <= k < |idx| ==> idx[k] < |blocks|
  {
    if blocks == [] then []
    else
      var n := |blocks| - 1;
      var prev := PickIndices(blocks[..n], outcome, b);
      var before := Pick(blocks[..n], outcome, b);
      LocatesExtend(blocks, before, prev);
      AnsweredExtend(blocks, outcome, b, prev);
      if BucketFor(blocks[n].text, outcome(n)) == Some(b) then
        IncreasingExtend(prev, n);
        prev + [n]
      else prev
  }

  lemma LocatesExtend(blocks: seq<TextBlock>, picked: seq<TextBlock>, idx: seq<nat>)
    requires blocks != [] && Locates(blocks[..|blocks| - 1], picked, idx)
    ensures Locates(blocks, picked, idx)
    ensures Locates(blocks, picked + [blocks[|blocks| - 1]], idx + [|blocks| - 1])
  {
    var init := blocks[..|blocks| - 1];
    forall k | 0 <= k < |idx| ensures blocks[idx[k]] == init[idx[k]] {
    }
  }

  lemma AnsweredExtend(blocks: seq<TextBlock>, outcome: nat -> ClassifyOutcome, b: Bucket, idx: seq<nat>)
    requires blocks != [] && AnsweredWith(blocks[..|blocks| - 1], outcome, b, idx)
    ensures AnsweredWith(blocks, outcome, b, idx)
    ensures var n := |blocks| - 1;
      BucketFor(blocks[n].text, outcome(n)) == Some(b) ==> AnsweredWith(blocks, outcome, b, idx + [n])
  {
    var init := blocks[..|blocks| - 1];
    forall k | 0 <= k < |idx| ensures blocks[idx[k]] == init[idx[k]] {
    }
  }

  lemma IncreasingExtend(idx: seq<nat>, n: nat)
    requires Increasing(idx)
    requires forall k :: 0 <= k < |idx| ==> idx[k] < n
    ensures Increasing(idx + [n])
  {
  }

  /** The number of blocks whose answer names no bucket. */
  function Dropped(blocks: seq<TextBlock>, outcome: nat -> ClassifyOutcome): nat {
    if blocks == [] then 0
    else
      var n := |blocks| - 1;
      Dropped(blocks[..n], outcome) + (if BucketFor(blocks[n].text, outcome(n)).None? then 1 else 0)
  }

  /** Every block goes to one bucket, or to none when its answer names none:
      the three bucket sizes and the dropped blocks add up to the input. */
  lemma {:induction false} BucketCounts(blocks: seq<TextBlock>, outcome: nat -> ClassifyOutcome)
    ensures |Pick(blocks, outcome, Titles)| + |Pick(blocks, outcome, Prices)| + |Pick(blocks, outcome, Descriptions)|
            + Dropped(blocks, outcome) == |blocks|
  {
    if blocks != [] {
      BucketCounts(blocks[..|blocks| - 1], outcome);
    }
  }

  /** No block is dropped unless its answer named no bucket. */
  lemma {:induction false} NothingDroppedWithoutStrayAnswer(blocks: seq<TextBlock>, outcome: nat -> ClassifyOutcome)
    requires forall i :: 0 <= i < |blocks| ==> BucketFor(blocks[i].text, outcome(i)).Some?
    ensures Dropped(blocks, outcome) == 0
  {
    if blocks != [] {
      var n := |blocks| - 1;
      forall i | 0 <= i < n ensures BucketFor(blocks[..n][i].text, outcome(i)).Some? {
        assert blocks[..n][i] == blocks[i];
      }
      NothingDroppedWithoutStrayAnswer(blocks[..n], outcome);
    }
  }

  /** How the analysis endpoint reads a response of the classification
      endpoint: a 2xx status is an answer carrying `type` (present only on a
      classification), anything else a failed call. */
  function OutcomeOf(r: ClassifyText.ClassifyResponse): ClassifyOutcome {
    var status := ClassifyText.StatusCode(r);
    if 200 <= status < 300 then Answered(if r.Classified? then Some(r.kind) else None) else NotOk
  }

  /** Together with the classification endpoint of this repository, no block
      is ever lost: whether the model answers, fails or is not configured,
      every block lands in exactly one bucket, as long as the model's own
      failures come with a non-2xx status. */
  lemma NoBlockLostThroughClassifier(blocks: seq<TextBlock>, outcome: nat -> ClassifyOutcome,
                                     configured: bool, replies: nat -> ClassifyText.GptReply)
    requires forall i :: 0 <= i < |blocks| ==>
               outcome(i) == OutcomeOf(ClassifyText.HandleClassify("POST", Some(blocks[i].text), configured, replies(i)))
    requires forall i :: 0 <= i < |blocks| ==> !(replies(i).GptNotOk? && 200 <= replies(i).status < 300)
    ensures |Pick(blocks, outcome, Titles)| + |Pick(blocks, outcome, Prices)| + |Pick(blocks, outcome, Descriptions)| == |blocks|
  {
    forall i | 0 <= i < |blocks| ensures BucketFor(blocks[i].text, outcome(i)).Some? {
      var r := ClassifyText.HandleClassify("POST", Some(blocks[i].text), configured, replies(i));
      if r.Classified? {
        assert outcome(i) == Answered(Some(r.kind));
      } else {
        assert !(200 <= ClassifyText.StatusCode(r) < 300);
      }
    }
    NothingDroppedWithoutStrayAnswer(blocks, outcome);
    BucketCounts(blocks, outcome);
  }

  /** The fallback rule on three short texts: "450" is a price and "PIZZA" a
      title, and so is "fresh basil", at 11 characters well under the
      30-character limit for titles. */
  lemma FallbackOnShortTexts()
    ensures FallbackBucket("450") == Prices
    ensures FallbackBucket("PIZZA") == Titles
    ensures FallbackBucket("fresh basil") == Titles
  {
    assert IsAsciiDigit("450"[0]);
    var s := "PIZZA";
    assert forall i :: 0 <= i < |s| ==> !IsAsciiDigit(s[i]);
  }

  datatype TextDetection = TextDetection(pages: Option<seq<Page>>)

  datatype FeatureResult = FeatureResult(textDetection: Option<TextDetection>)

  datatype ImageResult = ImageResult(results: Option<seq<FeatureResult>>)

  /** The parsed body of the Vision service's `batchAnalyze` response. */
  datatype VisionData = VisionData(results: Option<seq<ImageResult>>)

  const InvalidResponse: string := "Invalid response from Vision API"
  const NoTextDetected: string := "No text detected in image"

  /** What the endpoint answers once the Vision service has replied: a 500
      from the outer `catch`, or a 200 with the buckets. */
  datatype Analysis =
    | InternalServerError
    | Analyzed(blocks: Buckets, totalBlocks: nat, source: string, message: Option<string>)

  /** `visionData.results && visionData.results[0] && visionData.results[0].results` */
  predicate HasResults(data: VisionData) {
    data.results.Some? && |data.results.value| > 0 && data.results.value[0].results.Some?
  }

  /** The analysis of a Vision reply. When `results[0].results` is an empty
      list, reading `.textDetection` of its missing first entry throws. */
  function AnalysisOf(data: VisionData, outcome: nat -> ClassifyOutcome): Analysis {
    if !HasResults(data) then Analyzed(NoBuckets, 0, "yandex-vision", Some(InvalidResponse))
    else
      var features := data.results.value[0].results.value;
      if features == [] then InternalServerError
      else
        var detection := features[0].textDetection;
        if detection.None? || detection.value.pages.None? then Analyzed(NoBuckets, 0, "yandex-vision", Some(NoTextDetected))
        else match Collect(PageLines(detection.value.pages.value))
          case Failure(_) => InternalServerError
          case Success(blocks) =>
            if blocks == [] then Analyzed(NoBuckets, 0, "yandex-vision", Some(NoTextDetected))
            else Analyzed(Dispatch(blocks, outcome), |blocks|, "yandex-gpt", None)
  }

  /** The endpoint from the parsed Vision reply on: flatten, then classify. */
  method AnalyzeVisionData(data: VisionData, outcome: nat -> ClassifyOutcome) returns (a: Analysis)
    ensures a == AnalysisOf(data, outcome)
  {
    if !(data.results.Some? && |data.results.value| > 0 && data.results.value[0].results.Some?) {
      return Analyzed(NoBuckets, 0, "yandex-vision", Some(InvalidResponse));
    }
    var features := data.results.value[0].results.value;
    if |features| == 0 {
      return InternalServerError;
    }
    var textDetection := features[0];
    if !(textDetection.textDetection.Some? && textDetection.textDetection.value.pages.Some?) {
      return Analyzed(NoBuckets, 0, "yandex-vision", Some(NoTextDetected));
    }
    var flattened := FlattenPages(textDetection.textDetection.value.pages.value);
    if flattened.Failure? {
      return InternalServerError;
    }
    var allBlocks := flattened.value;
    if |allBlocks| == 0 {
      return Analyzed(NoBuckets, 0, "yandex-vision", Some(NoTextDetected));
    }
    var classifiedBlocks := ClassifyBlocks(allBlocks, outcome);
    a := Analyzed(classifiedBlocks, |allBlocks|, "yandex-gpt", None);
  }

  /** On every successful path the buckets hold at most `totalBlocks` blocks
      together; with no blocks the buckets are empty; and only a reply with
      text gets the classifier's source tag. */
  lemma AnalysisCounts(data: VisionData, outcome: nat -> ClassifyOutcome)
    ensures var a := AnalysisOf(data, outcome);
            a.Analyzed? ==>
              |a.blocks.titles| + |a.blocks.prices| + |a.blocks.descriptions| <= a.totalBlocks
    ensures var a := AnalysisOf(data, outcome);
            a.Analyzed? && a.totalBlocks == 0 ==> a.blocks == NoBuckets && a.source == "yandex-vision"
    ensures var a := AnalysisOf(data, outcome);
            a.Analyzed? && a.source == "yandex-gpt" ==> a.totalBlocks > 0 && a.message.None?
  {
    var a := AnalysisOf(data, outcome);
    if a.Analyzed? && a.source == "yandex-gpt" {
      var pages := data.results.value[0].results.value[0].textDetection.value.pages.value;
      var blocks := Collect(PageLines(pages)).value;
      BucketCounts(blocks, outcome);
    }
  }

  /** Every block in a bucket is a block of the reply's lines, so its text is
      non-empty and trimmed. */
  lemma AnalyzedTextsTrimmed(data: VisionData, outcome: nat -> ClassifyOutcome, x: TextBlock)
    requires AnalysisOf(data, outcome).Analyzed?
    requires var bs := AnalysisOf(data, outcome).blocks;
             x in bs.titles || x in bs.prices || x in bs.descriptions
    ensures x.text != [] && Trim(x.text) == x.text
  {
    var pages := data.results.value[0].results.value[0].textDetection.value.pages.value;
    var blocks := Collect(PageLines(pages)).value;
    CollectedTextsTrimmed(PageLines(pages));
    var b := if x in Pick(blocks, outcome, Titles) then Titles
             else if x in Pick(blocks, outcome, Prices) then Prices
             else Descriptions;
    PickMembers(blocks, outcome, b, x);
    var i :| 0 <= i < |blocks| && blocks[i] == x && BucketFor(blocks[i].text, outcome(i)) == Some(b);
    assert x in blocks;
  }
}
