/** The client's word records (src/App.tsx): OCR words as they arrive from the
    analysis endpoint, their semantic category, the display rectangles the
    layout pipeline works on, and the highlight colour of each category. */
module Words {
  import opened Wrappers

  /** A word's category. The type declares four labels, but the client copies
      `word.category` from the server's JSON without checking it, so any other
      non-empty string can reach the pipeline; it is kept as `Unrecognized`. */
  datatype Category = Title | Description | Price | PriceModifier | Unrecognized(name: string)

  /** The string a category stands for. */
  function Label(c: Category): string {
    match c
    case Title => "title"
    case Description => "description"
    case Price => "price"
    case PriceModifier => "price_modifier"
    case Unrecognized(s) => s
  }

  /** `w.category || 'description'`: an absent or empty category becomes
      `description`; any other string is taken as it is. */
  function CategoryOf(raw: Option<string>): (c: Category)
    ensures Label(c) == if raw.None? || raw.value == "" then "description" else raw.value
    ensures c.Unrecognized? ==> c.name !in {"", "title", "description", "price", "price_modifier"}
  {
    match raw
    case None => Description
    case Some(s) =>
      if s == "" || s == "description" then Description
      else if s == "title" then Title
      else if s == "price" then Price
      else if s == "price_modifier" then PriceModifier
      else Unrecognized(s)
  }

  /** A category is decoded back from its own label. */
  lemma CategoryOfLabel(c: Category)
    requires c.Unrecognized? ==> c.name !in {"", "title", "description", "price", "price_modifier"}
    ensures CategoryOf(Some(Label(c))) == c
  {
  }

  const TitleColor: string := "rgba(255, 100, 100, 0.4)"
  const DescriptionColor: string := "rgba(255, 200, 50, 0.4)"
  const PriceColor: string := "rgba(100, 255, 100, 0.4)"
  const PriceModifierColor: string := "rgba(100, 200, 255, 0.4)"

  /** `getCategoryColor`: one colour per known category; any other label falls
      to the default branch, which is the description colour. */
  function CategoryColor(c: Category): (color: string)
    ensures c.Unrecognized? ==> color == DescriptionColor
    ensures color == TitleColor <==> c == Title
    ensures color == PriceColor <==> c == Price
    ensures color == PriceModifierColor <==> c == PriceModifier
    ensures color == DescriptionColor <==> (c == Description || c.Unrecognized?)
  {
    match c
    case Title => TitleColor
    case Description => DescriptionColor
    case Price => PriceColor
    case PriceModifier => PriceModifierColor
    case Unrecognized(_) => DescriptionColor
  }

  /** A bounding box as the word source reports it: normalized to [0,1] or in
      pixels of the natural image. */
  datatype BBox = BBox(x0: real, y0: real, x1: real, y1: real)

  datatype OcrWord = OcrWord(bbox: BBox, text: string, fontSize: real, category: Option<string>)

  /** The image's natural size and its size on screen. */
  datatype ImageDims = ImageDims(naturalWidth: real, naturalHeight: real, displayWidth: real, displayHeight: real)

  /** A word placed on the displayed image (`WordRect`). */
  datatype WordRect = WordRect(x: real, y: real, width: real, height: real,
                               originalIndex: nat, category: Category, text: string)

  /** The auto-detection of normalized coordinates. */
  predicate IsNormalized(b: BBox) {
    b.x1 <= 1.0 && b.y1 <= 1.0
  }

  predicate HasNaturalSize(dims: ImageDims) {
    dims.naturalWidth > 0.0 && dims.naturalHeight > 0.0
  }

  /** Display units per box unit: the display size for a normalized box, the
      ratio of display to natural size for a pixel box. */
  function HorizontalScale(b: BBox, dims: ImageDims): real
    requires IsNormalized(b) || HasNaturalSize(dims)
  {
    if IsNormalized(b) then dims.displayWidth else dims.displayWidth / dims.naturalWidth
  }

  function VerticalScale(b: BBox, dims: ImageDims): real
    requires IsNormalized(b) || HasNaturalSize(dims)
  {
    if IsNormalized(b) then dims.displayHeight else dims.displayHeight / dims.naturalHeight
  }

  /** Step 1 of `drawHighlights`: the display rectangle of word number `idx`.
      Its left and right edges are the box's x0 and x1 scaled, its top and
      bottom edges the box's y0 and y1 scaled, and its category is the word's
      own or `description`. */
  function ToWordRect(w: OcrWord, idx: nat, dims: ImageDims): (r: WordRect)
    requires HasNaturalSize(dims)
    ensures r.x == w.bbox.x0 * HorizontalScale(w.bbox, dims)
    ensures r.x + r.width == w.bbox.x1 * HorizontalScale(w.bbox, dims)
    ensures r.y == w.bbox.y0 * VerticalScale(w.bbox, dims)
    ensures r.y + r.height == w.bbox.y1 * VerticalScale(w.bbox, dims)
    ensures r.originalIndex == idx && r.text == w.text && r.category == CategoryOf(w.category)
  {
    var b := w.bbox;
    if IsNormalized(b) then
      WordRect(b.x0 * dims.displayWidth, b.y0 * dims.displayHeight,
               (b.x1 - b.x0) * dims.displayWidth, (b.y1 - b.y0) * dims.displayHeight,
               idx, CategoryOf(w.category), w.text)
    else
      var scaleX := dims.displayWidth / dims.naturalWidth;
      var scaleY := dims.displayHeight / dims.naturalHeight;
      WordRect(b.x0 * scaleX, b.y0 * scaleY, (b.x1 - b.x0) * scaleX, (b.y1 - b.y0) * scaleY,
               idx, CategoryOf(w.category), w.text)
  }

  /** `words.map(...)` of step 1: one rectangle per word, at the same index. */
  function ToWordRects(words: seq<OcrWord>, dims: ImageDims): (rs: seq<WordRect>)
    requires HasNaturalSize(dims)
    ensures |rs| == |words|
    ensures forall i :: 0 <= i < |rs| ==> rs[i].originalIndex == i && rs[i].text == words[i].text
    ensures forall i :: 0 <= i < |rs| ==> rs[i] == ToWordRect(words[i], i, dims)
  {
    seq(|words|, i requires 0 <= i < |words| => ToWordRect(words[i], i, dims))
  }

  /** The two coordinate conventions agree: a normalized box and the same box
      in pixels of the natural image give the same display rectangle, as long
      as the pixel box is recognised as such. */
  lemma NormalizedAndPixelAgree(b: BBox, text: string, fontSize: real, cat: Option<string>, dims: ImageDims)
    requires HasNaturalSize(dims)
    requires IsNormalized(b)
    requires !IsNormalized(BBox(b.x0 * dims.naturalWidth, b.y0 * dims.naturalHeight,
                                b.x1 * dims.naturalWidth, b.y1 * dims.naturalHeight))
    ensures ToWordRect(OcrWord(b, text, fontSize, cat), 0, dims)
         == ToWordRect(OcrWord(BBox(b.x0 * dims.naturalWidth, b.y0 * dims.naturalHeight,
                                    b.x1 * dims.naturalWidth, b.y1 * dims.naturalHeight),
                               text, fontSize, cat), 0, dims)
  {
    var sx := dims.displayWidth / dims.naturalWidth;
    var sy := dims.displayHeight / dims.naturalHeight;
    assert sx * dims.naturalWidth == dims.displayWidth;
    assert sy * dims.naturalHeight == dims.displayHeight;
    assert b.x0 * dims.naturalWidth * sx == b.x0 * dims.displayWidth;
    assert b.y0 * dims.naturalHeight * sy == b.y0 * dims.displayHeight;
    assert (b.x1 * dims.naturalWidth - b.x0 * dims.naturalWidth) * sx == (b.x1 - b.x0) * dims.displayWidth;
    assert (b.y1 * dims.naturalHeight - b.y0 * dims.naturalHeight) * sy == (b.y1 - b.y0) * dims.displayHeight;
  }
}
