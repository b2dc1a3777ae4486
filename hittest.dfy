/** `handleCanvasClick` (src/App.tsx): a tap on the overlay canvas is turned
    into canvas pixels, the first title word under it is looked up, the first
    stored menu item holding a title word with the same text and origin is
    found, and that item becomes the dish shown in the card.

    The stored items are the segmenter's items mapped back to the OCR words
    they came from (`menuItemsForState`). The canvas is
    `max(1, floor(devicePixelRatio))` times the display size, while the
    handler as written scales the word boxes by a fixed 2; the model keeps
    that version as `HandleCanvasClickAsWritten` and uses the canvas scale in
    `HandleCanvasClick`. */
module HitTest {
  import opened Wrappers
  import opened Text
  import opened Words
  import opened MenuSegmenter
  import opened ItemFrames

  datatype Point = Point(x: real, y: real)

  /** An axis-aligned box: origin, width and height. */
  datatype Box = Box(x: real, y: real, width: real, height: real)

  /** The canvas element's bounding rectangle on the page. */
  datatype ClientRect = ClientRect(left: real, top: real, width: real, height: real)

  /** What the handler reads: the image dimensions, the last OCR words and
      the stored menu items. */
  datatype ClickState = ClickState(imageDims: Option<ImageDims>, lastWords: seq<OcrWord>,
                                   menuItems: seq<MenuItem<OcrWord>>)

  /** The data of the dish card; `priceModifier` is absent when the item has
      no modifier word. */
  datatype DishInfo = DishInfo(title: string, priceModifier: Option<string>, prices: seq<string>,
                               description: string)

  /** `Math.round`: the nearest integer, halves rounded up. */
  function Round(v: real): (n: int)
    ensures v - 0.5 < n as real <= v + 0.5
  {
    (v + 0.5).Floor
  }

  /** `Math.max(1, Math.floor(window.devicePixelRatio || 1))`: the whole
      number of canvas pixels per display unit. */
  function CanvasScale(devicePixelRatio: real): (s: int)
    ensures s >= 1
    ensures devicePixelRatio >= 1.0 ==> s as real <= devicePixelRatio < s as real + 1.0
    ensures devicePixelRatio < 1.0 ==> s == 1
  {
    var ratio := if devicePixelRatio == 0.0 then 1.0 else devicePixelRatio;
    var f := ratio.Floor;
    if f < 1 then 1 else f
  }

  /** `canvas.width` / `canvas.height`: `Math.max(1, Math.round(size * dpr))`. */
  function CanvasPixels(size: real, scale: int): (n: int)
    ensures n >= 1
    ensures size == size.Floor as real && size >= 1.0 && scale >= 1 ==> n as real == size * scale as real
  {
    var m := Round(size * scale as real);
    WholeSizeRounds(size, scale);
    if m < 1 then 1 else m
  }

  /** A whole size times a whole scale rounds to itself. */
  lemma WholeSizeRounds(size: real, scale: int)
    ensures size == size.Floor as real && size >= 1.0 && scale >= 1 ==>
              Round(size * scale as real) == size.Floor * scale
  {
    if size == size.Floor as real && size >= 1.0 && scale >= 1 {
      var whole := size.Floor * scale;
      assert size * scale as real == whole as real;
      assert (whole as real + 0.5).Floor == whole;
    }
  }

  /** The tap in canvas pixels: its offset in the element, times canvas
      pixels per element unit. An element of zero width or height gives
      infinite or undefined coordinates in JavaScript, which lie inside no
      box; the model has no point then. */
  function CanvasPoint(client: Point, bounds: ClientRect, canvasWidth: int, canvasHeight: int): (p: Option<Point>)
    ensures p.None? <==> bounds.width == 0.0 || bounds.height == 0.0
  {
    if bounds.width == 0.0 || bounds.height == 0.0 then None
    else Some(Point((client.x - bounds.left) * (canvasWidth as real / bounds.width),
                    (client.y - bounds.top) * (canvasHeight as real / bounds.height)))
  }

  /** The tap relative to the element's top-left corner. */
  function Offset(client: Point, bounds: ClientRect): Point {
    Point(client.x - bounds.left, client.y - bounds.top)
  }

  function ScalePoint(p: Point, f: real): Point {
    Point(p.x * f, p.y * f)
  }

  /** The display rectangle of a word as a box. */
  function RectBox(r: WordRect): Box {
    Box(r.x, r.y, r.width, r.height)
  }

  function ScaleBox(b: Box, factor: real): Box {
    Box(b.x * factor, b.y * factor, b.width * factor, b.height * factor)
  }

  /** The box a word is hit-tested against, `factor` canvas pixels per
      display unit. A pixel box against an image without a natural size
      divides by zero in JavaScript and is hit by no point; it has no box. */
  function HitBox(w: OcrWord, dims: ImageDims, factor: real): (r: Option<Box>)
    ensures r.Some? <==> IsNormalized(w.bbox) || HasNaturalSize(dims)
  {
    if !IsNormalized(w.bbox) && !HasNaturalSize(dims) then None
    else Some(ScaleBox(DisplayBox(w.bbox, dims), factor))
  }

  /** A bounding box in display units, by the same two conventions as the
      drawing step. */
  function DisplayBox(b: BBox, dims: ImageDims): Box
    requires IsNormalized(b) || HasNaturalSize(dims)
  {
    var sx := HorizontalScale(b, dims);
    var sy := VerticalScale(b, dims);
    Box(b.x0 * sx, b.y0 * sy, (b.x1 - b.x0) * sx, (b.y1 - b.y0) * sy)
  }

  /** The hit box is the rectangle the overlay draws for the word, scaled by
      `factor`. */
  lemma HitBoxIsDrawnRectScaled(w: OcrWord, i: nat, dims: ImageDims, factor: real)
    requires HasNaturalSize(dims)
    ensures HitBox(w, dims, factor) == Some(ScaleBox(RectBox(ToWordRect(w, i, dims)), factor))
  {
    DrawnRectFields(w, i, dims);
  }

  /** The drawn rectangle of a word is its display box. */
  lemma DrawnRectFields(w: OcrWord, i: nat, dims: ImageDims)
    requires HasNaturalSize(dims)
    ensures RectBox(ToWordRect(w, i, dims)) == DisplayBox(w.bbox, dims)
  {
  }

  /** Inclusive containment: points on the edge count. */
  predicate Inside(p: Point, b: Box) {
    b.x <= p.x <= b.x + b.width && b.y <= p.y <= b.y + b.height
  }

  /** The predicate of `lastWords.find`: a word whose category is exactly
      the string "title" and whose box holds the tap. */
  predicate Hits(w: OcrWord, dims: ImageDims, factor: real, p: Point) {
    w.category == Some("title") && HitBox(w, dims, factor).Some? && Inside(p, HitBox(w, dims, factor).value)
  }

  /** The index of the first word the tap hits. */
  function FindClicked(words: seq<OcrWord>, dims: ImageDims, factor: real, p: Point): (r: Option<nat>)
    ensures r.Some? ==> r.value < |words| && Hits(words[r.value], dims, factor, p)
    ensures r.Some? ==> forall k :: 0 <= k < r.value ==> !Hits(words[k], dims, factor, p)
    ensures r.None? ==> forall k :: 0 <= k < |words| ==> !Hits(words[k], dims, factor, p)
  {
    if words == [] then None
    else if Hits(words[0], dims, factor, p) then Some(0)
    else match FindClicked(words[1..], dims, factor, p)
      case None => None
      case Some(k) => Some(k + 1)
  }

  /** The test of `item.title.some(...)`: same text and same top-left box
      corner. */
  predicate LooksSame(a: OcrWord, b: OcrWord) {
    a.text == b.text && a.bbox.x0 == b.bbox.x0 && a.bbox.y0 == b.bbox.y0
  }

  predicate HasTitleLike(item: MenuItem<OcrWord>, w: OcrWord) {
    exists j :: 0 <= j < |item.title| && LooksSame(item.title[j], w)
  }

  /** The index of the first item with a title word like `w`. */
  function MatchItem(items: seq<MenuItem<OcrWord>>, w: OcrWord): (r: Option<nat>)
    ensures r.Some? ==> r.value < |items| && HasTitleLike(items[r.value], w)
    ensures r.Some? ==> forall k :: 0 <= k < r.value ==> !HasTitleLike(items[k], w)
    ensures r.None? ==> forall k :: 0 <= k < |items| ==> !HasTitleLike(items[k], w)
  {
    if items == [] then None
    else if HasTitleLike(items[0], w) then Some(0)
    else match MatchItem(items[1..], w)
      case None => None
      case Some(k) => Some(k + 1)
  }

  function Texts(ws: seq<OcrWord>): (r: seq<string>)
    ensures |r| == |ws| && forall i :: 0 <= i < |ws| ==> r[i] == ws[i].text
  {
    seq(|ws|, i requires 0 <= i < |ws| => ws[i].text)
  }

  /** The dish card of an item: the title words joined by spaces, the
      modifier words joined only when there are any, one price string per
      price word in order, and the description words joined by spaces. */
  function Dish(item: MenuItem<OcrWord>): (d: DishInfo)
    ensures d.priceModifier.None? <==> item.priceModifier == []
    ensures d.prices == Texts(item.price)
    ensures |item.title| == 1 ==> d.title == item.title[0].text
    ensures item.description == [] ==> d.description == ""
    ensures |item.priceModifier| == 1 ==> d.priceModifier == Some(item.priceModifier[0].text)
  {
    DishInfo(Join(Texts(item.title), " "),
             if |item.priceModifier| > 0 then Some(Join(Texts(item.priceModifier), " ")) else None,
             Texts(item.price),
             Join(Texts(item.description), " "))
  }

  /** `d` is the card of the tapped dish: the tap maps to canvas point `p`,
      the first title word whose box holds `p` is word `i`, and `d` is the
      dish of the first item whose title holds a word like word `i`. */
  predicate ShowsTappedDish(st: ClickState, client: Point, bounds: ClientRect,
                            canvasWidth: int, canvasHeight: int, factor: real, d: DishInfo) {
    && st.imageDims.Some?
    && CanvasPoint(client, bounds, canvasWidth, canvasHeight).Some?
    && var p := CanvasPoint(client, bounds, canvasWidth, canvasHeight).value;
    && FindClicked(st.lastWords, st.imageDims.value, factor, p).Some?
    && var i := FindClicked(st.lastWords, st.imageDims.value, factor, p).value;
    && MatchItem(st.menuItems, st.lastWords[i]).Some?
    && d == Dish(st.menuItems[MatchItem(st.menuItems, st.lastWords[i]).value])
  }

  /** The handler with `factor` canvas pixels per display unit in its word
      boxes, on a canvas of `canvasWidth` by `canvasHeight` pixels. The
      result is the dish selected, or none when the selection is left as it
      was. */
  function ClickWithFactor(st: ClickState, client: Point, bounds: ClientRect,
                           canvasWidth: int, canvasHeight: int, factor: real): (r: Option<DishInfo>)
    ensures st.imageDims.None? || st.lastWords == [] || st.menuItems == [] ==> r.None?
    ensures r.Some? ==> exists k :: 0 <= k < |st.menuItems| && r.value == Dish(st.menuItems[k])
    ensures r.Some? ==> ShowsTappedDish(st, client, bounds, canvasWidth, canvasHeight, factor, r.value)
    ensures r.Some? <==>
      && st.imageDims.Some? && st.lastWords != [] && st.menuItems != []
      && CanvasPoint(client, bounds, canvasWidth, canvasHeight).Some?
      && var p := CanvasPoint(client, bounds, canvasWidth, canvasHeight).value;
      && FindClicked(st.lastWords, st.imageDims.value, factor, p).Some?
      && MatchItem(st.menuItems, st.lastWords[FindClicked(st.lastWords, st.imageDims.value, factor, p).value]).Some?
  {
    if st.imageDims.None? || |st.lastWords| == 0 || |st.menuItems| == 0 then None
    else
      var dims := st.imageDims.value;
      match CanvasPoint(client, bounds, canvasWidth, canvasHeight)
      case None => None
      case Some(p) =>
        match FindClicked(st.lastWords, dims, factor, p)
        case None => None
        case Some(i) =>
          match MatchItem(st.menuItems, st.lastWords[i])
          case None => None
          case Some(k) => Some(Dish(st.menuItems[k]))
  }

  /** The canvas size `drawHighlights` gives the overlay for these
      dimensions and device pixel ratio. */
  function CanvasSize(dims: ImageDims, devicePixelRatio: real): (wh: (int, int))
    ensures wh.0 >= 1 && wh.1 >= 1
  {
    var s := CanvasScale(devicePixelRatio);
    (CanvasPixels(dims.displayWidth, s), CanvasPixels(dims.displayHeight, s))
  }

  /** The handler as written: word boxes at twice the display size whatever
      the device pixel ratio. */
  function HandleCanvasClickAsWritten(st: ClickState, client: Point, bounds: ClientRect,
                                      devicePixelRatio: real): (r: Option<DishInfo>)
    ensures st.imageDims.None? || st.lastWords == [] || st.menuItems == [] ==> r.None?
    ensures r.Some? ==> exists k :: 0 <= k < |st.menuItems| && r.value == Dish(st.menuItems[k])
    ensures r.Some? ==> st.imageDims.Some?
    ensures r.Some? ==> ShowsTappedDish(st, client, bounds, CanvasSize(st.imageDims.value, devicePixelRatio).0,
                                        CanvasSize(st.imageDims.value, devicePixelRatio).1, 2.0, r.value)
  {
    if st.imageDims.None? then None
    else
      var wh := CanvasSize(st.imageDims.value, devicePixelRatio);
      ClickWithFactor(st, client, bounds, wh.0, wh.1, 2.0)
  }

  /** The handler with word boxes at the scale the canvas is drawn at. */
  function HandleCanvasClick(st: ClickState, client: Point, bounds: ClientRect,
                             devicePixelRatio: real): (r: Option<DishInfo>)
    ensures st.imageDims.None? || st.lastWords == [] || st.menuItems == [] ==> r.None?
    ensures r.Some? ==> exists k :: 0 <= k < |st.menuItems| && r.value == Dish(st.menuItems[k])
    ensures r.Some? ==> st.imageDims.Some?
    ensures r.Some? ==> ShowsTappedDish(st, client, bounds, CanvasSize(st.imageDims.value, devicePixelRatio).0,
                                        CanvasSize(st.imageDims.value, devicePixelRatio).1,
                                        CanvasScale(devicePixelRatio) as real, r.value)
  {
    if st.imageDims.None? then None
    else
      var wh := CanvasSize(st.imageDims.value, devicePixelRatio);
      ClickWithFactor(st, client, bounds, wh.0, wh.1, CanvasScale(devicePixelRatio) as real)
  }

  /** On a screen of two device pixels per display unit the two handlers
      agree. */
  lemma AsWrittenAgreesAtDensityTwo(st: ClickState, client: Point, bounds: ClientRect, devicePixelRatio: real)
    requires CanvasScale(devicePixelRatio) == 2
    ensures HandleCanvasClickAsWritten(st, client, bounds, devicePixelRatio)
         == HandleCanvasClick(st, client, bounds, devicePixelRatio)
  {
  }

  /** On a screen of one device pixel per display unit the handler as
      written misses a title that is tapped in its middle: the word covers
      display units 10 to 20 of a 100-unit image, the tap at 15 lands on
      canvas pixel 15, and the box tested is 20 to 40. The corrected handler
      opens the dish. */
  lemma AsWrittenMissesAtDensityOne()
    ensures var dims := ImageDims(100.0, 100.0, 100.0, 100.0);
            var w := OcrWord(BBox(0.1, 0.1, 0.2, 0.2), "PANCAKES", 12.0, Some("title"));
            var item := MenuItem([], [w], [], []);
            var st := ClickState(Some(dims), [w], [item]);
            var bounds := ClientRect(0.0, 0.0, 100.0, 100.0);
            && HandleCanvasClickAsWritten(st, Point(15.0, 15.0), bounds, 1.0) == None
            && HandleCanvasClick(st, Point(15.0, 15.0), bounds, 1.0) == Some(Dish(item))
  {
    var dims := ImageDims(100.0, 100.0, 100.0, 100.0);
    var w := OcrWord(BBox(0.1, 0.1, 0.2, 0.2), "PANCAKES", 12.0, Some("title"));
    var item := MenuItem([], [w], [], []);
    var st := ClickState(Some(dims), [w], [item]);
    var bounds := ClientRect(0.0, 0.0, 100.0, 100.0);
    assert CanvasScale(1.0) == 1;
    assert CanvasSize(dims, 1.0) == (100, 100);
    var p := Point(15.0, 15.0);
    assert CanvasPoint(Point(15.0, 15.0), bounds, 100, 100) == Some(p);
    assert HitBox(w, dims, 2.0) == Some(Box(20.0, 20.0, 20.0, 20.0));
    assert FindClicked([w], dims, 2.0, p) == None;
    assert HitBox(w, dims, 1.0) == Some(Box(10.0, 10.0, 10.0, 10.0));
    assert FindClicked([w], dims, 1.0, p) == Some(0);
    assert LooksSame(item.title[0], w);
    assert MatchItem([item], w) == Some(0);
  }

  /** A tap inside the rectangle the overlay draws for a title word selects
      that word or an earlier title word under the same point, when the
      canvas is shown at the image's display size (whole display units, as
      `clientWidth` reports them). */
  lemma TapFindsTitle(st: ClickState, client: Point, bounds: ClientRect, devicePixelRatio: real, i: nat)
    requires st.imageDims.Some? && HasNaturalSize(st.imageDims.value)
    requires var dims := st.imageDims.value;
             && dims.displayWidth >= 1.0 && dims.displayWidth == dims.displayWidth.Floor as real
             && dims.displayHeight >= 1.0 && dims.displayHeight == dims.displayHeight.Floor as real
             && bounds.width == dims.displayWidth && bounds.height == dims.displayHeight
    requires i < |st.lastWords| && st.lastWords[i].category == Some("title")
    requires Inside(Offset(client, bounds),
                    RectBox(ToWordRect(st.lastWords[i], i, st.imageDims.value)))
    ensures var dims := st.imageDims.value;
            var wh := CanvasSize(dims, devicePixelRatio);
            var p := CanvasPoint(client, bounds, wh.0, wh.1);
            && p.Some?
            && var found := FindClicked(st.lastWords, dims, CanvasScale(devicePixelRatio) as real, p.value);
            && found.Some? && found.value <= i
  {
    var dims := st.imageDims.value;
    var wh := CanvasSize(dims, devicePixelRatio);
    var f := CanvasScale(devicePixelRatio) as real;
    CanvasMatchesElement(dims, devicePixelRatio, bounds);
    assert wh.0 as real == bounds.width * f && wh.1 as real == bounds.height * f;
    TapOnScaledCanvas(st.lastWords, dims, f, wh.0, wh.1, client, bounds, i);
  }

  /** For an element of the image's whole display size, the canvas is the
      element's size times the canvas scale. */
  lemma CanvasMatchesElement(dims: ImageDims, devicePixelRatio: real, bounds: ClientRect)
    requires dims.displayWidth >= 1.0 && dims.displayWidth == dims.displayWidth.Floor as real
    requires dims.displayHeight >= 1.0 && dims.displayHeight == dims.displayHeight.Floor as real
    requires bounds.width == dims.displayWidth && bounds.height == dims.displayHeight
    ensures CanvasSize(dims, devicePixelRatio).0 as real == bounds.width * CanvasScale(devicePixelRatio) as real
    ensures CanvasSize(dims, devicePixelRatio).1 as real == bounds.height * CanvasScale(devicePixelRatio) as real
    ensures bounds.width >= 1.0 && bounds.height >= 1.0 && CanvasScale(devicePixelRatio) as real >= 1.0
  {
    CanvasSizeExact(dims, devicePixelRatio);
  }

  /** `TapFindsTitle` for any canvas exactly `f` times the element size. */
  lemma TapOnScaledCanvas(words: seq<OcrWord>, dims: ImageDims, f: real, canvasWidth: int, canvasHeight: int,
                          client: Point, bounds: ClientRect, i: nat)
    requires HasNaturalSize(dims) && f >= 1.0
    requires bounds.width >= 1.0 && bounds.height >= 1.0
    requires canvasWidth as real == bounds.width * f && canvasHeight as real == bounds.height * f
    requires i < |words| && words[i].category == Some("title")
    requires Inside(Offset(client, bounds), RectBox(ToWordRect(words[i], i, dims)))
    ensures var p := CanvasPoint(client, bounds, canvasWidth, canvasHeight);
            && p.Some?
            && FindClicked(words, dims, f, p.value).Some?
            && FindClicked(words, dims, f, p.value).value <= i
  {
    var q := Offset(client, bounds);
    CanvasPointScales(client, bounds, canvasWidth, canvasHeight, f);
    TapHitsWord(words[i], i, dims, f, q);
    FindClickedReaches(words, dims, f, ScalePoint(q, f), i);
  }

  /** The search stops at a hit word or before it. */
  lemma FindClickedReaches(words: seq<OcrWord>, dims: ImageDims, f: real, p: Point, i: nat)
    requires i < |words| && Hits(words[i], dims, f, p)
    ensures FindClicked(words, dims, f, p).Some? && FindClicked(words, dims, f, p).value <= i
  {
  }

  /** Drawn at whole display units, the canvas is exactly the display size
      times the canvas scale. */
  lemma CanvasSizeExact(dims: ImageDims, devicePixelRatio: real)
    requires dims.displayWidth >= 1.0 && dims.displayWidth == dims.displayWidth.Floor as real
    requires dims.displayHeight >= 1.0 && dims.displayHeight == dims.displayHeight.Floor as real
    ensures CanvasSize(dims, devicePixelRatio).0 as real == dims.displayWidth * CanvasScale(devicePixelRatio) as real
    ensures CanvasSize(dims, devicePixelRatio).1 as real == dims.displayHeight * CanvasScale(devicePixelRatio) as real
  {
  }

  /** A point inside a word's drawn rectangle, scaled by `f`, hits the word
      when it is a title. */
  lemma TapHitsWord(w: OcrWord, i: nat, dims: ImageDims, f: real, q: Point)
    requires HasNaturalSize(dims) && f > 0.0 && w.category == Some("title")
    requires Inside(q, RectBox(ToWordRect(w, i, dims)))
    ensures Hits(w, dims, f, ScalePoint(q, f))
  {
    HitBoxIsDrawnRectScaled(w, i, dims, f);
    ScaleKeepsInside(q, RectBox(ToWordRect(w, i, dims)), f);
  }

  /** With the canvas `f` times the element size, a tap maps to `f` times its
      offset in the element. */
  lemma CanvasPointScales(client: Point, bounds: ClientRect, canvasWidth: int, canvasHeight: int, f: real)
    requires bounds.width != 0.0 && bounds.height != 0.0
    requires canvasWidth as real == bounds.width * f && canvasHeight as real == bounds.height * f
    ensures CanvasPoint(client, bounds, canvasWidth, canvasHeight) == Some(ScalePoint(Offset(client, bounds), f))
  {
    var dx := client.x - bounds.left;
    var dy := client.y - bounds.top;
    assert canvasWidth as real / bounds.width == f;
    assert canvasHeight as real / bounds.height == f;
    var p := CanvasPoint(client, bounds, canvasWidth, canvasHeight);
    assert p.value.x == dx * f && p.value.y == dy * f;
    assert p == Some(Point(dx * f, dy * f));
    assert (client.x - bounds.left) * f == dx * f;
    assert (client.y - bounds.top) * f == dy * f;
    assert ScalePoint(Offset(client, bounds), f) == Point(dx * f, dy * f);
  }

  lemma ScaleKeepsInside(q: Point, b: Box, f: real)
    requires f > 0.0 && Inside(q, b)
    ensures Inside(ScalePoint(q, f), ScaleBox(b, f))
  {
    assert b.x * f <= q.x * f;
    assert q.x * f <= (b.x + b.width) * f;
    assert b.y * f <= q.y * f;
    assert q.y * f <= (b.y + b.height) * f;
  }

  /** `words[wr.originalIndex]` for each rectangle of a bucket. */
  function BackToWords(ws: seq<WordRect>, words: seq<OcrWord>): (r: seq<OcrWord>)
    requires forall x :: x in ws ==> x.originalIndex < |words|
    ensures |r| == |ws| && forall i :: 0 <= i < |ws| ==> r[i] == words[ws[i].originalIndex]
  {
    seq(|ws|, i requires 0 <= i < |ws| => words[ws[i].originalIndex])
  }

  predicate IndicesBelow(item: MenuItem<WordRect>, n: nat) {
    forall x :: x in ItemWords(item) ==> x.originalIndex < n
  }

  /** `menuItemsForState`: an item of rectangles as an item of the OCR words
      they were made from. */
  function ToOcrItem(item: MenuItem<WordRect>, words: seq<OcrWord>): (r: MenuItem<OcrWord>)
    requires IndicesBelow(item, |words|)
    ensures r.title == BackToWords(item.title, words)
    ensures r.priceModifier == BackToWords(item.priceModifier, words)
    ensures r.price == BackToWords(item.price, words)
    ensures r.description == BackToWords(item.description, words)
  {
    MenuItem(BackToWords(item.priceModifier, words), BackToWords(item.title, words),
             BackToWords(item.price, words), BackToWords(item.description, words))
  }

  function ToOcrItems(items: seq<MenuItem<WordRect>>, words: seq<OcrWord>): (r: seq<MenuItem<OcrWord>>)
    requires forall it :: it in items ==> IndicesBelow(it, |words|)
    ensures |r| == |items| && forall k :: 0 <= k < |items| ==> r[k] == ToOcrItem(items[k], words)
  {
    seq(|items|, k requires 0 <= k < |items| => ToOcrItem(items[k], words))
  }

  /** The items segmented from the rectangles of `words`, taken in any
      order, point back into `words`. */
  lemma SegmentIndicesValid(words: seq<OcrWord>, dims: ImageDims, ordered: seq<WordRect>)
    requires HasNaturalSize(dims)
    requires multiset(ordered) == multiset(ToWordRects(words, dims))
    ensures forall it :: it in Segment(ordered) ==> IndicesBelow(it, |words|)
  {
    var rects := ToWordRects(words, dims);
    forall x | x in ordered ensures x.originalIndex < |words| {
      assert x in multiset(rects);
      var i :| 0 <= i < |rects| && rects[i] == x;
    }
    SegmentDrawsFromInput(ordered, PriceModifier);
    SegmentDrawsFromInput(ordered, Title);
    SegmentDrawsFromInput(ordered, Price);
    SegmentDrawsFromInput(ordered, Description);
    forall it | it in Segment(ordered) ensures IndicesBelow(it, |words|) {
      forall x | x in ItemWords(it) ensures x.originalIndex < |words| {
        assert x in Bucket(it, PriceModifier) || x in Bucket(it, Title)
            || x in Bucket(it, Price) || x in Bucket(it, Description);
      }
    }
  }

  /** Clicking and segmenting agree: when the stored items are the segmented
      items of the last words, mapped back, a tap inside the drawn rectangle
      of any title word opens a dish. Every title word is in some item's
      title, so the item lookup never comes back empty. */
  lemma TapOnTitleOpensDish(st: ClickState, client: Point, bounds: ClientRect, devicePixelRatio: real,
                            i: nat, ordered: seq<WordRect>)
    requires st.imageDims.Some? && HasNaturalSize(st.imageDims.value)
    requires var dims := st.imageDims.value;
             && dims.displayWidth >= 1.0 && dims.displayWidth == dims.displayWidth.Floor as real
             && dims.displayHeight >= 1.0 && dims.displayHeight == dims.displayHeight.Floor as real
             && bounds.width == dims.displayWidth && bounds.height == dims.displayHeight
    requires multiset(ordered) == multiset(ToWordRects(st.lastWords, st.imageDims.value))
    requires forall it :: it in Segment(ordered) ==> IndicesBelow(it, |st.lastWords|)
    requires st.menuItems == ToOcrItems(Segment(ordered), st.lastWords)
    requires i < |st.lastWords| && st.lastWords[i].category == Some("title")
    requires Inside(Offset(client, bounds),
                    RectBox(ToWordRect(st.lastWords[i], i, st.imageDims.value)))
    ensures HandleCanvasClick(st, client, bounds, devicePixelRatio).Some?
    ensures OpensItemOfTitle(st, i, HandleCanvasClick(st, client, bounds, devicePixelRatio).value)
  {
    var dims := st.imageDims.value;
    var words := st.lastWords;
    var f := CanvasScale(devicePixelRatio) as real;
    var wh := CanvasSize(dims, devicePixelRatio);
    TapFindsTitle(st, client, bounds, devicePixelRatio, i);
    var p := CanvasPoint(client, bounds, wh.0, wh.1).value;
    var j := FindClicked(words, dims, f, p).value;
    var rects := ToWordRects(words, dims);
    var x := rects[j];
    assert words[j].category == Some("title");
    assert x.category == Title;
    assert x in ordered by {
      assert x in multiset(rects);
    }
    EveryTitleKept(ordered, x);
    var it :| it in Segment(ordered) && x in it.title;
    TitleRectMatches(Segment(ordered), words, it, x);
    assert st.menuItems != [] && words != [];
    var r := HandleCanvasClick(st, client, bounds, devicePixelRatio);
    assert ShowsTappedDish(st, client, bounds, wh.0, wh.1, f, r.value);
    var k := MatchItem(st.menuItems, words[j]).value;
    TappedItemWitness(st, i, j, k, r.value);
  }

  /** `d` is the dish of an item whose title holds a word like title word
      `j`, for a title word `j` at or before word `i`. */
  predicate OpensItemOfTitle(st: ClickState, i: nat, d: DishInfo) {
    exists j, k :: && 0 <= j <= i && j < |st.lastWords| && 0 <= k < |st.menuItems|
                   && st.lastWords[j].category == Some("title")
                   && HasTitleLike(st.menuItems[k], st.lastWords[j])
                   && d == Dish(st.menuItems[k])
  }

  lemma TappedItemWitness(st: ClickState, i: nat, j: nat, k: nat, d: DishInfo)
    requires j <= i && j < |st.lastWords| && k < |st.menuItems|
    requires st.lastWords[j].category == Some("title")
    requires HasTitleLike(st.menuItems[k], st.lastWords[j])
    requires d == Dish(st.menuItems[k])
    ensures OpensItemOfTitle(st, i, d)
  {
  }

  /** A rectangle in the title of an item maps back to a title word of the
      corresponding item of OCR words. */
  lemma TitleRectMatches(items: seq<MenuItem<WordRect>>, words: seq<OcrWord>, it: MenuItem<WordRect>, x: WordRect)
    requires forall t :: t in items ==> IndicesBelow(t, |words|)
    requires it in items && x in it.title
    ensures x.originalIndex < |words|
    ensures exists k :: 0 <= k < |items| && HasTitleLike(ToOcrItems(items, words)[k], words[x.originalIndex])
  {
    var k :| 0 <= k < |items| && items[k] == it;
    var m :| 0 <= m < |it.title| && it.title[m] == x;
    assert x in ItemWords(it);
    var ocr := ToOcrItems(items, words)[k];
    assert ocr.title[m] == words[x.originalIndex];
    assert LooksSame(ocr.title[m], words[x.originalIndex]);
  }
}
