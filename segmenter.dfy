/** `groupMenuItems` (src/App.tsx): the segmenter that turns the classified
    word stream, in reading order, into menu items. It is a two-state machine:
    either no item is active, or one item is being built. */
module MenuSegmenter {
  import opened Wrappers
  import opened Words

  /** A dish record: its words sorted into four buckets. The word type is a
      parameter because the client keeps the items over display rectangles
      while drawing and over the original OCR words for tap handling. */
  datatype MenuItem<W> = MenuItem(priceModifier: seq<W>, title: seq<W>, price: seq<W>, description: seq<W>)

  /** The bucket named by a category; an unrecognized category has none. */
  function Bucket<W>(item: MenuItem<W>, c: Category): seq<W> {
    match c
    case PriceModifier => item.priceModifier
    case Title => item.title
    case Price => item.price
    case Description => item.description
    case Unrecognized(_) => []
  }

  /** The active item after `currentItem.<bucket>.push(word)`; a word of an
      unrecognized category matches no branch and changes nothing. */
  function AddWord(item: MenuItem<WordRect>, w: WordRect): MenuItem<WordRect> {
    match w.category
    case PriceModifier => item.(priceModifier := item.priceModifier + [w])
    case Title => item.(title := item.title + [w])
    case Price => item.(price := item.price + [w])
    case Description => item.(description := item.description + [w])
    case Unrecognized(_) => item
  }

  /** The loop state: the items pushed so far and the active item, if any. */
  datatype Segmentation = Segmentation(items: seq<MenuItem<WordRect>>, current: Option<MenuItem<WordRect>>)

  /** A word that closes the active item and opens a new one: a price
      modifier, or a title once the active item has a description. */
  predicate OpensItem(current: Option<MenuItem<WordRect>>, w: WordRect) {
    w.category == PriceModifier || (w.category == Title && current.Some? && |current.value.description| > 0)
  }

  /** One iteration of the loop. */
  function Step(st: Segmentation, w: WordRect): Segmentation {
    var opens := OpensItem(st.current, w);
    var items := if opens && st.current.Some? then st.items + [st.current.value] else st.items;
    var current := if opens || (st.current.None? && w.category == Title) then Some(MenuItem([], [], [], []))
                   else st.current;
    Segmentation(items, if current.Some? then Some(AddWord(current.value, w)) else None)
  }

  /** The loop state after the words of `words`, in order. */
  function Run(words: seq<WordRect>): Segmentation {
    if words == [] then Segmentation([], None) else Step(Run(words[..|words| - 1]), words[|words| - 1])
  }

  /** The items in creation order once the active one is pushed at the end. */
  function Emitted(st: Segmentation): seq<MenuItem<WordRect>> {
    st.items + (if st.current.Some? then [st.current.value] else [])
  }

  /** `items.filter(item => item.title.length > 0)`: exactly the items with a
      title, in their order. */
  function KeepTitled(items: seq<MenuItem<WordRect>>): (r: seq<MenuItem<WordRect>>)
    ensures forall it :: it in r <==> it in items && |it.title| > 0
    ensures |r| <= |items|
    ensures (forall it :: it in items ==> |it.title| > 0) ==> r == items
  {
    if items == [] then []
    else if |items[0].title| > 0 then [items[0]] + KeepTitled(items[1..])
    else KeepTitled(items[1..])
  }

  /** `kept[k]` is `items[idx[k]]` for every `k`. */
  predicate PicksAt(items: seq<MenuItem<WordRect>>, kept: seq<MenuItem<WordRect>>, idx: seq<nat>) {
    && |idx| == |kept|
    && forall k :: 0 <= k < |idx| ==> idx[k] < |items| && kept[k] == items[idx[k]]
  }

  predicate Ascending(idx: seq<nat>) {
    forall k, l :: 0 <= k < l < |idx| ==> idx[k] < idx[l]
  }

  /** Every position of a titled item is listed in `idx`, and only those. */
  predicate ExactlyTitled(items: seq<MenuItem<WordRect>>, idx: seq<nat>) {
    forall j :: 0 <= j < |items| ==> (j in idx <==> |items[j].title| > 0)
  }

  /** The positions `KeepTitled` takes its items from: every titled
      position once, in increasing order, so the filter keeps the items'
      creation order and drops exactly the untitled ones. */
  function TitledPositions(items: seq<MenuItem<WordRect>>): (idx: seq<nat>)
    ensures PicksAt(items, KeepTitled(items), idx)
    ensures Ascending(idx)
    ensures ExactlyTitled(items, idx)
  {
    if items == [] then []
    else
      var rest := TitledPositions(items[1..]);
      var shifted := Shifted(rest);
      ShiftedPicks(items, KeepTitled(items[1..]), rest, KeepTitled(items));
      if |items[0].title| > 0 then [0] + shifted else shifted
  }

  function Shifted(idx: seq<nat>): (r: seq<nat>)
    ensures |r| == |idx|
    ensures forall k :: 0 <= k < |idx| ==> r[k] == idx[k] + 1
  {
    seq(|idx|, k requires 0 <= k < |idx| => idx[k] + 1)
  }

  /** The step of `TitledPositions`: the tail's positions, moved up by one,
      with position 0 in front when the head has a title. */
  lemma ShiftedPicks(items: seq<MenuItem<WordRect>>, tail: seq<MenuItem<WordRect>>, rest: seq<nat>,
                     kept: seq<MenuItem<WordRect>>)
    requires items != []
    requires PicksAt(items[1..], tail, rest) && Ascending(rest) && ExactlyTitled(items[1..], rest)
    requires kept == if |items[0].title| > 0 then [items[0]] + tail else tail
    ensures var idx := if |items[0].title| > 0 then [0] + Shifted(rest) else Shifted(rest);
            PicksAt(items, kept, idx) && Ascending(idx) && ExactlyTitled(items, idx)
  {
    var sh := Shifted(rest);
    ShiftKeepsPicks(items, tail, rest);
    ShiftKeepsTitled(items, rest);
    if |items[0].title| > 0 {
      ConsZeroPicks(items, tail, sh);
      ConsZeroAscending(sh);
      ConsZeroTitled(items, sh);
    }
  }

  lemma ShiftKeepsPicks(items: seq<MenuItem<WordRect>>, tail: seq<MenuItem<WordRect>>, rest: seq<nat>)
    requires items != [] && PicksAt(items[1..], tail, rest) && Ascending(rest)
    ensures PicksAt(items, tail, Shifted(rest)) && Ascending(Shifted(rest))
    ensures forall k :: 0 <= k < |rest| ==> Shifted(rest)[k] >= 1
  {
    var sh := Shifted(rest);
    forall k | 0 <= k < |sh| ensures sh[k] < |items| && tail[k] == items[sh[k]] {
      assert items[1..][rest[k]] == items[rest[k] + 1];
    }
  }

  lemma ShiftKeepsTitled(items: seq<MenuItem<WordRect>>, rest: seq<nat>)
    requires items != [] && ExactlyTitled(items[1..], rest)
    ensures forall j :: 1 <= j < |items| ==> (j in Shifted(rest) <==> |items[j].title| > 0)
    ensures 0 !in Shifted(rest)
  {
    var sh := Shifted(rest);
    forall j | 1 <= j < |items| ensures j in sh <==> |items[j].title| > 0 {
      assert items[1..][j - 1] == items[j];
      if j - 1 in rest {
        var k :| 0 <= k < |rest| && rest[k] == j - 1;
        assert sh[k] == j;
      }
      if j in sh {
        var k :| 0 <= k < |sh| && sh[k] == j;
        assert rest[k] == j - 1;
      }
    }
  }

  lemma ConsZeroPicks(items: seq<MenuItem<WordRect>>, tail: seq<MenuItem<WordRect>>, sh: seq<nat>)
    requires items != [] && PicksAt(items, tail, sh)
    ensures PicksAt(items, [items[0]] + tail, [0] + sh)
  {
    var idx := [0] + sh;
    var kept := [items[0]] + tail;
    forall k | 0 <= k < |idx| ensures idx[k] < |items| && kept[k] == items[idx[k]] {
      if k > 0 { assert idx[k] == sh[k - 1] && kept[k] == tail[k - 1]; }
    }
  }

  lemma ConsZeroAscending(sh: seq<nat>)
    requires Ascending(sh) && forall k :: 0 <= k < |sh| ==> sh[k] >= 1
    ensures Ascending([0] + sh)
  {
    var idx := [0] + sh;
    forall k, l | 0 <= k < l < |idx| ensures idx[k] < idx[l] {
      assert idx[l] == sh[l - 1];
      if k > 0 { assert idx[k] == sh[k - 1]; }
    }
  }

  lemma ConsZeroTitled(items: seq<MenuItem<WordRect>>, sh: seq<nat>)
    requires items != [] && |items[0].title| > 0
    requires forall j :: 1 <= j < |items| ==> (j in sh <==> |items[j].title| > 0)
    ensures ExactlyTitled(items, [0] + sh)
  {
    forall j | 0 <= j < |items| ensures j in [0] + sh <==> |items[j].title| > 0 {
      assert j in [0] + sh <==> j == 0 || j in sh;
    }
  }

  /** What `groupMenuItems` returns for a stream already in reading order. */
  function Segment(words: seq<WordRect>): seq<MenuItem<WordRect>> {
    KeepTitled(Emitted(Run(words)))
  }

  /** The segmenter loop over words given in reading order. */
  method GroupMenuItems(words: seq<WordRect>) returns (items: seq<MenuItem<WordRect>>)
    ensures items == Segment(words)
    ensures forall it :: it in items ==> |it.title| > 0
  {
    var pushed: seq<MenuItem<WordRect>> := [];
    var currentItem: Option<MenuItem<WordRect>> := None;
    for i := 0 to |words|
      invariant Segmentation(pushed, currentItem) == Run(words[..i])
    {
      var word := words[i];
      if word.category == PriceModifier
         || (word.category == Title && currentItem.Some? && |currentItem.value.description| > 0) {
        if currentItem.Some? {
          pushed := pushed + [currentItem.value];
        }
        currentItem := Some(MenuItem([], [], [], []));
      }
      if currentItem.None? && word.category == Title {
        currentItem := Some(MenuItem([], [], [], []));
      }
      if currentItem.Some? {
        var item := currentItem.value;
        if word.category == PriceModifier {
          currentItem := Some(item.(priceModifier := item.priceModifier + [word]));
        } else if word.category == Title {
          currentItem := Some(item.(title := item.title + [word]));
        } else if word.category == Price {
          currentItem := Some(item.(price := item.price + [word]));
        } else if word.category == Description {
          currentItem := Some(item.(description := item.description + [word]));
        }
      }
      assert words[..i + 1][..i] == words[..i];
    }
    assert words[..|words|] == words;
    if currentItem.Some? {
      pushed := pushed + [currentItem.value];
    }
    assert pushed == Emitted(Run(words));
    items := KeepTitled(pushed);
  }

  lemma RunAppend(p: seq<WordRect>, w: WordRect)
    ensures Run(p + [w]) == Step(Run(p), w)
  {
    assert (p + [w])[..|p|] == p;
  }

  predicate IsAnchor(w: WordRect) {
    w.category == Title || w.category == PriceModifier
  }

  /** The position of the first title or price modifier; `|words|` if none. */
  function FirstAnchor(words: seq<WordRect>): (k: nat)
    ensures k <= |words|
    ensures forall i :: 0 <= i < k ==> !IsAnchor(words[i])
    ensures k < |words| ==> IsAnchor(words[k])
  {
    if words == [] then 0
    else if IsAnchor(words[0]) then 0
    else 1 + FirstAnchor(words[1..])
  }

  lemma {:induction false} FirstAnchorAppend(p: seq<WordRect>, w: WordRect)
    ensures FirstAnchor(p) < |p| ==> FirstAnchor(p + [w]) == FirstAnchor(p)
    ensures FirstAnchor(p) == |p| ==> FirstAnchor(p + [w]) == if IsAnchor(w) then |p| else |p| + 1
  {
    if p != [] && !IsAnchor(p[0]) {
      FirstAnchorAppend(p[1..], w);
      assert (p + [w])[1..] == p[1..] + [w];
    }
  }

  /** An item is active exactly when a title or price modifier has been seen:
      the state machine never returns to "no active item". */
  lemma {:induction false} ActiveIffAnchored(words: seq<WordRect>)
    ensures Run(words).current.Some? <==> FirstAnchor(words) < |words|
  {
    if words != [] {
      var p, w := words[..|words| - 1], words[|words| - 1];
      assert words == p + [w];
      ActiveIffAnchored(p);
      FirstAnchorAppend(p, w);
    }
  }

  /** The words the segmenter keeps: everything from the first title or price
      modifier on. Prices and descriptions before it find no active item. */
  function Kept(words: seq<WordRect>): seq<WordRect> {
    words[FirstAnchor(words)..]
  }

  /** The words of category `c`, in input order. */
  function Select(c: Category, words: seq<WordRect>): seq<WordRect> {
    if words == [] then []
    else Select(c, words[..|words| - 1]) + (if words[|words| - 1].category == c then [words[|words| - 1]] else [])
  }

  /** Bucket `c` of every item, item after item. */
  function Gather(items: seq<MenuItem<WordRect>>, c: Category): seq<WordRect> {
    if items == [] then []
    else Gather(items[..|items| - 1], c) + Bucket(items[|items| - 1], c)
  }

  lemma SelectAppend(c: Category, p: seq<WordRect>, w: WordRect)
    ensures Select(c, p + [w]) == Select(c, p) + (if w.category == c then [w] else [])
  {
    assert (p + [w])[..|p|] == p;
  }

  lemma GatherAppend(items: seq<MenuItem<WordRect>>, it: MenuItem<WordRect>, c: Category)
    ensures Gather(items + [it], c) == Gather(items, c) + Bucket(it, c)
  {
    assert (items + [it])[..|items|] == items;
  }

  lemma BucketAddWord(item: MenuItem<WordRect>, w: WordRect, c: Category)
    requires !c.Unrecognized?
    ensures Bucket(AddWord(item, w), c) == Bucket(item, c) + (if w.category == c then [w] else [])
  {
  }

  /** Bucket placement: for each of the four categories, the words in that
      bucket across all items, item after item, are exactly the words of that
      category from the first title or price modifier on, in input order.
      So a word is dropped only when it is a price or description that comes
      before any item exists (or has an unrecognized category), and every
      other word lands once, in the bucket its category names. */
  lemma {:induction false} BucketsFollowInput(words: seq<WordRect>, c: Category)
    requires !c.Unrecognized?
    ensures Gather(Emitted(Run(words)), c) == Select(c, Kept(words))
  {
    if words != [] {
      var p, w := words[..|words| - 1], words[|words| - 1];
      assert words == p + [w];
      BucketsFollowInput(p, c);
      ActiveIffAnchored(p);
      FirstAnchorAppend(p, w);
      RunAppend(p, w);
      if FirstAnchor(p) < |p| {
        BucketsStepActive(Run(p), p, w, c);
      } else {
        BucketsStepIdle(Run(p), p, w, c);
      }
    }
  }

  lemma {:induction false} SelectFromInput(c: Category, words: seq<WordRect>)
    ensures forall x :: x in Select(c, words) ==> x in words && x.category == c
  {
    if words != [] {
      var p := words[..|words| - 1];
      SelectFromInput(c, p);
      assert forall x :: x in p ==> x in words;
    }
  }

  lemma {:induction false} GatherHoldsBuckets(items: seq<MenuItem<WordRect>>, c: Category)
    ensures forall k, x :: 0 <= k < |items| && x in Bucket(items[k], c) ==> x in Gather(items, c)
  {
    if items != [] {
      var init := items[..|items| - 1];
      GatherHoldsBuckets(init, c);
      assert forall k :: 0 <= k < |init| ==> items[k] == init[k];
    }
  }

  lemma {:induction false} SelectContains(c: Category, words: seq<WordRect>, x: WordRect)
    requires x in words && x.category == c
    ensures x in Select(c, words)
  {
    var p := words[..|words| - 1];
    if x != words[|words| - 1] {
      assert words == p + [words[|words| - 1]];
      SelectContains(c, p, x);
    }
  }

  lemma {:induction false} GatherMember(items: seq<MenuItem<WordRect>>, c: Category, x: WordRect)
    requires x in Gather(items, c)
    ensures exists k :: 0 <= k < |items| && x in Bucket(items[k], c)
  {
    var init := items[..|items| - 1];
    if x !in Bucket(items[|items| - 1], c) {
      GatherMember(init, c, x);
      var k :| 0 <= k < |init| && x in Bucket(init[k], c);
      assert items[k] == init[k];
    }
  }

  /** Every title word lands in the title of an item the segmenter returns:
      a title always finds or opens an item, and that item then has a title
      and survives the filter. */
  lemma EveryTitleKept(words: seq<WordRect>, x: WordRect)
    requires x in words && x.category == Title
    ensures exists it :: it in Segment(words) && x in it.title
  {
    var i :| 0 <= i < |words| && words[i] == x;
    assert IsAnchor(words[i]);
    var k := FirstAnchor(words);
    assert k <= i;
    assert Kept(words)[i - k] == x;
    SelectContains(Title, Kept(words), x);
    BucketsFollowInput(words, Title);
    var items := Emitted(Run(words));
    GatherMember(items, Title, x);
    var j :| 0 <= j < |items| && x in Bucket(items[j], Title);
    assert items[j] in items && |items[j].title| > 0;
  }

  /** Every word of every item the segmenter returns is one of its input
      words, in the bucket its own category names. */
  lemma SegmentDrawsFromInput(words: seq<WordRect>, c: Category)
    requires !c.Unrecognized?
    ensures forall it, x :: it in Segment(words) && x in Bucket(it, c) ==> x in words && x.category == c
  {
    var items := Emitted(Run(words));
    BucketsFollowInput(words, c);
    GatherHoldsBuckets(items, c);
    SelectFromInput(c, Kept(words));
    forall it, x | it in Segment(words) && x in Bucket(it, c) ensures x in words && x.category == c {
      assert it in items;
      var k :| 0 <= k < |items| && items[k] == it;
      assert x in Select(c, Kept(words));
      KeptWithin(words, x);
    }
  }

  lemma KeptWithin(words: seq<WordRect>, x: WordRect)
    requires x in Kept(words)
    ensures x in words
  {
    var k := FirstAnchor(words);
    var i :| 0 <= i < |words| - k && words[k..][i] == x;
    assert words[k + i] == x;
  }

  /** How one word changes the emitted items. */
  lemma EmittedStep(st: Segmentation, w: WordRect)
    ensures OpensItem(st.current, w) ==> Emitted(Step(st, w)) == Emitted(st) + [AddWord(MenuItem([], [], [], []), w)]
    ensures !OpensItem(st.current, w) && st.current.Some? ==>
              Emitted(Step(st, w)) == st.items + [AddWord(st.current.value, w)]
    ensures !OpensItem(st.current, w) && st.current.None? && w.category == Title ==>
              Emitted(Step(st, w)) == st.items + [AddWord(MenuItem([], [], [], []), w)]
    ensures st.current.None? && !IsAnchor(w) ==> Step(st, w) == st
  {
  }

  lemma KeptAppend(p: seq<WordRect>, w: WordRect)
    requires FirstAnchor(p) < |p|
    ensures Kept(p + [w]) == Kept(p) + [w]
  {
    FirstAnchorAppend(p, w);
    SuffixAppend(p, w, FirstAnchor(p));
  }

  lemma SuffixAppend(p: seq<WordRect>, w: WordRect, k: nat)
    requires k <= |p|
    ensures (p + [w])[k..] == p[k..] + [w]
  {
  }

  /** The step of `BucketsFollowInput` while an item is active. */
  lemma BucketsStepActive(st: Segmentation, p: seq<WordRect>, w: WordRect, c: Category)
    requires !c.Unrecognized?
    requires st.current.Some? && FirstAnchor(p) < |p|
    requires Gather(Emitted(st), c) == Select(c, Kept(p))
    ensures Gather(Emitted(Step(st, w)), c) == Select(c, Kept(p + [w]))
  {
    var here := if w.category == c then [w] else [];
    calc {
      Select(c, Kept(p + [w]));
      { KeptAppend(p, w); }
      Select(c, Kept(p) + [w]);
      { SelectAppend(c, Kept(p), w); }
      Select(c, Kept(p)) + here;
      Gather(Emitted(st), c) + here;
    }
    var cur := st.current.value;
    EmittedStep(st, w);
    if OpensItem(st.current, w) {
      GatherOpen(Emitted(st), w, c);
    } else {
      GatherExtend(st.items, cur, w, c);
    }
  }

  lemma GatherOpen(items: seq<MenuItem<WordRect>>, w: WordRect, c: Category)
    requires !c.Unrecognized?
    ensures Gather(items + [AddWord(MenuItem([], [], [], []), w)], c)
            == Gather(items, c) + (if w.category == c then [w] else [])
  {
    GatherAppend(items, AddWord(MenuItem([], [], [], []), w), c);
    BucketAddWord(MenuItem([], [], [], []), w, c);
  }

  lemma GatherExtend(items: seq<MenuItem<WordRect>>, cur: MenuItem<WordRect>, w: WordRect, c: Category)
    requires !c.Unrecognized?
    ensures Gather(items + [AddWord(cur, w)], c)
            == Gather(items + [cur], c) + (if w.category == c then [w] else [])
  {
    var here := if w.category == c then [w] else [];
    calc {
      Gather(items + [AddWord(cur, w)], c);
      { GatherAppend(items, AddWord(cur, w), c); }
      Gather(items, c) + Bucket(AddWord(cur, w), c);
      { BucketAddWord(cur, w, c); }
      Gather(items, c) + (Bucket(cur, c) + here);
      Gather(items, c) + Bucket(cur, c) + here;
      { GatherAppend(items, cur, c); }
      Gather(items + [cur], c) + here;
    }
  }

  /** The step of `BucketsFollowInput` while no item is active. */
  lemma BucketsStepIdle(st: Segmentation, p: seq<WordRect>, w: WordRect, c: Category)
    requires !c.Unrecognized?
    requires st.current.None? && FirstAnchor(p) == |p|
    requires Gather(Emitted(st), c) == Select(c, Kept(p))
    ensures Gather(Emitted(Step(st, w)), c) == Select(c, Kept(p + [w]))
  {
    FirstAnchorAppend(p, w);
    EmittedStep(st, w);
    assert Kept(p) == [];
    assert Emitted(st) == st.items;
    if IsAnchor(w) {
      var newItem := AddWord(MenuItem([], [], [], []), w);
      BucketAddWord(MenuItem([], [], [], []), w, c);
      assert Kept(p + [w]) == [] + [w];
      SelectAppend(c, [], w);
      GatherAppend(st.items, newItem, c);
    } else {
      assert Kept(p + [w]) == [];
    }
  }

  /** A price modifier always closes the active item, if there is one, and
      opens a new last item whose only word is that modifier. */
  lemma PriceModifierOpensItem(p: seq<WordRect>, w: WordRect)
    requires w.category == PriceModifier
    ensures Emitted(Run(p + [w])) == Emitted(Run(p)) + [MenuItem([w], [], [], [])]
  {
    RunAppend(p, w);
    EmittedStep(Run(p), w);
    assert AddWord(MenuItem([], [], [], []), w) == MenuItem([w], [], [], []);
  }

  /** A title opens a new item only when there is no active item or the
      active one already has a description; otherwise it extends the active
      item's title, even across prices and a price modifier seen before it. */
  lemma TitleContinuation(p: seq<WordRect>, w: WordRect)
    requires w.category == Title
    ensures var st := Run(p);
      if st.current.Some? && |st.current.value.description| == 0 then
        Emitted(Run(p + [w])) == st.items + [st.current.value.(title := st.current.value.title + [w])]
      else
        Emitted(Run(p + [w])) == Emitted(st) + [MenuItem([], [w], [], [])]
  {
    RunAppend(p, w);
    assert AddWord(MenuItem([], [], [], []), w) == MenuItem([], [w], [], []);
  }

  /** Prices, descriptions and unrecognized words never open or close an
      item; without an active item they leave the items as they are. */
  lemma OtherWordsNeverOpen(p: seq<WordRect>, w: WordRect)
    requires !IsAnchor(w)
    ensures |Emitted(Run(p + [w]))| == |Emitted(Run(p))|
    ensures Run(p).current.None? ==> Run(p + [w]) == Run(p)
    ensures Run(p + [w]).items == Run(p).items
  {
    RunAppend(p, w);
  }

  /** Every item the machine creates is anchored by a title or a price
      modifier, and holds at most one price modifier, the one that opened it. */
  lemma {:induction false} EmittedItemsAnchored(words: seq<WordRect>)
    ensures forall it :: it in Emitted(Run(words)) ==> |it.priceModifier| + |it.title| > 0
    ensures forall it :: it in Emitted(Run(words)) ==> |it.priceModifier| <= 1
  {
    if words != [] {
      var p, w := words[..|words| - 1], words[|words| - 1];
      assert words == p + [w];
      EmittedItemsAnchored(p);
      RunAppend(p, w);
      var st := Run(p);
      assert forall it :: it in st.items ==> it in Emitted(st);
      assert st.current.Some? ==> st.current.value in Emitted(st);
    }
  }

  /** Feeding one more word to a known state. */
  lemma RunExtends(p: seq<WordRect>, w: WordRect, q: seq<WordRect>, st: Segmentation, st': Segmentation)
    requires Run(p) == st && Step(st, w) == st' && q == p + [w]
    ensures Run(q) == st'
  {
    RunAppend(p, w);
  }

  /** A title interrupted by an inline price continues as one title: the
      lines "ZUCCHINI PANCAKES WITH" (title), "980" (price), "SALMON AND EGGS"
      (title), "zucchini, salmon, eggs" (description) make one item. */
  lemma TitleAcrossPriceExample(t1: WordRect, p1: WordRect, t2: WordRect, d1: WordRect)
    requires t1.category == Title && p1.category == Price
    requires t2.category == Title && d1.category == Description
    ensures Segment([t1, p1, t2, d1]) == [MenuItem([], [t1, t2], [p1], [d1])]
  {
    var dish := MenuItem([], [t1, t2], [p1], [d1]);
    TitlePriceTitleRun(t1, p1, t2, d1);
    assert Emitted(Segmentation([], Some(dish))) == [dish];
    assert forall it :: it in [dish] ==> |it.title| > 0;
  }

  /** The state after the four words of the example above. */
  lemma TitlePriceTitleRun(t1: WordRect, p1: WordRect, t2: WordRect, d1: WordRect)
    requires t1.category == Title && p1.category == Price
    requires t2.category == Title && d1.category == Description
    ensures Run([t1, p1, t2, d1]) == Segmentation([], Some(MenuItem([], [t1, t2], [p1], [d1])))
  {
    var s1 := Segmentation([], Some(MenuItem([], [t1], [], [])));
    var s2 := Segmentation([], Some(MenuItem([], [t1], [p1], [])));
    var s3 := Segmentation([], Some(MenuItem([], [t1, t2], [p1], [])));
    var s4 := Segmentation([], Some(MenuItem([], [t1, t2], [p1], [d1])));
    assert Step(Segmentation([], None), t1) == s1 by { assert [] + [t1] == [t1]; }
    RunExtends([], t1, [t1], Segmentation([], None), s1);
    assert Step(s1, p1) == s2 by { assert [] + [p1] == [p1]; }
    RunExtends([t1], p1, [t1, p1], s1, s2);
    assert Step(s2, t2) == s3 by { assert [t1] + [t2] == [t1, t2]; }
    RunExtends([t1, p1], t2, [t1, p1, t2], s2, s3);
    assert Step(s3, d1) == s4 by { assert [] + [d1] == [d1]; }
    RunExtends([t1, p1, t2], d1, [t1, p1, t2, d1], s3, s4);
  }

  /** The first three words of the example below: each modifier opens an
      item, and the title joins the second. */
  lemma ModifierPairRun(m1: WordRect, m2: WordRect, t: WordRect)
    requires m1.category == PriceModifier && m2.category == PriceModifier && t.category == Title
    ensures Run([m1, m2, t]) == Segmentation([MenuItem([m1], [], [], [])], Some(MenuItem([m2], [t], [], [])))
  {
    var first := MenuItem([m1], [], [], []);
    var s1 := Segmentation([], Some(first));
    var s2 := Segmentation([first], Some(MenuItem([m2], [], [], [])));
    var s3 := Segmentation([first], Some(MenuItem([m2], [t], [], [])));
    assert Step(Segmentation([], None), m1) == s1 by { assert [] + [m1] == [m1]; }
    RunExtends([], m1, [m1], Segmentation([], None), s1);
    assert Step(s1, m2) == s2 by { assert [] + [m2] == [m2]; assert [] + [first] == [first]; }
    RunExtends([m1], m2, [m1, m2], s1, s2);
    assert Step(s2, t) == s3 by { assert [] + [t] == [t]; }
    RunExtends([m1, m2], t, [m1, m2, t], s2, s3);
  }

  /** Two prices and a description after an active item with no
      description all join that item. */
  lemma PricesThenDescriptionRun(q: seq<WordRect>, st: Segmentation, p1: WordRect, p2: WordRect, d: WordRect)
    requires Run(q) == st && st.current.Some? && st.current.value.description == []
    requires p1.category == Price && p2.category == Price && d.category == Description
    ensures var cur := st.current.value;
            Run(q + [p1, p2, d])
            == Segmentation(st.items, Some(cur.(price := cur.price + [p1, p2], description := [d])))
  {
    var cur := st.current.value;
    var s4 := Segmentation(st.items, Some(cur.(price := cur.price + [p1])));
    var s5 := Segmentation(st.items, Some(cur.(price := cur.price + [p1, p2])));
    var s6 := Segmentation(st.items, Some(cur.(price := cur.price + [p1, p2], description := [d])));
    assert Step(st, p1) == s4;
    RunExtends(q, p1, q + [p1], st, s4);
    assert Step(s4, p2) == s5 by { assert cur.price + [p1] + [p2] == cur.price + [p1, p2]; }
    RunExtends(q + [p1], p2, q + [p1, p2], s4, s5);
    assert Step(s5, d) == s6 by { assert [] + [d] == [d]; }
    RunExtends(q + [p1, p2], d, q + [p1, p2, d], s5, s6);
  }

  /** The filter drops a leading item without a title. */
  lemma KeepTitledDropsUntitled(first: MenuItem<WordRect>, dish: MenuItem<WordRect>)
    requires first.title == [] && dish.title != []
    ensures KeepTitled([first, dish]) == [dish]
  {
    assert [first, dish][1..] == [dish];
    assert [dish][1..] == [];
  }

  /** Every price-modifier word opens an item of its own: for "DOUBLE",
      "TRIPLE" (both price modifiers), "CHEESEBURGER", "930", "1190",
      "eggs, arugula", the item opened by "DOUBLE" has no title and is
      discarded, so only "TRIPLE" stays with the dish. */
  lemma ConsecutiveModifiersExample(m1: WordRect, m2: WordRect, t: WordRect, p1: WordRect, p2: WordRect, d: WordRect)
    requires m1.category == PriceModifier && m2.category == PriceModifier && t.category == Title
    requires p1.category == Price && p2.category == Price && d.category == Description
    ensures Segment([m1, m2, t, p1, p2, d]) == [MenuItem([m2], [t], [p1, p2], [d])]
  {
    var first := MenuItem([m1], [], [], []);
    var dish := MenuItem([m2], [t], [p1, p2], [d]);
    var st := Segmentation([first], Some(MenuItem([m2], [t], [], [])));
    ModifierPairRun(m1, m2, t);
    PricesThenDescriptionRun([m1, m2, t], st, p1, p2, d);
    assert [m1, m2, t] + [p1, p2, d] == [m1, m2, t, p1, p2, d];
    assert [] + [p1, p2] == [p1, p2];
    assert Run([m1, m2, t, p1, p2, d]) == Segmentation([first], Some(dish));
    assert Emitted(Segmentation([first], Some(dish))) == [first, dish];
    KeepTitledDropsUntitled(first, dish);
  }
}
