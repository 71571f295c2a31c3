/** Rectangle-based masking of an image: parsing caller rectangles,
    rasterising them into a boolean mask, painting the masked pixels,
    reporting mask coverage and comparing two rectangle lists. */
module ImageMasking {

  import opened Outcomes
  import opened PyStrings

  // ---------------------------------------------------------------------
  // Decoded JSON and normalised rectangles
  // ---------------------------------------------------------------------

  /** A decoded JSON value, as the JSON decoder hands it to the parser. */
  datatype Json =
    | JNull
    | JBool(b: bool)
    | JNumber(n: real)
    | JString(s: string)
    | JArray(items: seq<Json>)
    | JObject(fields: map<string, Json>)

  /** A rectangle in image-relative coordinates: (x, y) is the top-left corner. */
  datatype Rect = Rect(x: real, y: real, width: real, height: real)

  /** What the parser promises of every rectangle it returns. */
  predicate InBounds(r: Rect) {
    && 0.0 <= r.x <= 1.0
    && 0.0 <= r.y <= 1.0
    && 0.0 < r.width <= 1.0 - r.x
    && 0.0 < r.height <= 1.0 - r.y
  }

  /** Python's `max(a, b)` and `min(a, b)` on numbers. */
  function Max(a: real, b: real): real { if b > a then b else a }
  function Min(a: real, b: real): real { if b < a then b else a }

  /** `max(0.0, min(1.0, v))`. */
  function Clamp01(v: real): (r: real)
    ensures 0.0 <= r <= 1.0
    ensures 0.0 <= v <= 1.0 ==> r == v
  {
    Max(0.0, Min(1.0, v))
  }

  /** The clamping both the parser and the rasteriser apply: the origin goes into
      [0, 1] and the extent is cut to what is left of the unit square. */
  function ClampRect(x: real, y: real, width: real, height: real): (r: Rect)
    ensures 0.0 <= r.x <= 1.0 && 0.0 <= r.y <= 1.0
    ensures 0.0 <= r.width <= 1.0 - r.x && 0.0 <= r.height <= 1.0 - r.y
  {
    var cx := Clamp01(x);
    var cy := Clamp01(y);
    Rect(cx, cy, Max(0.0, Min(1.0 - cx, width)), Max(0.0, Min(1.0 - cy, height)))
  }

  // ---------------------------------------------------------------------
  // parse_rectangle_data
  // ---------------------------------------------------------------------

  /** A JSON value Python compares as a number: numbers, and booleans as 1 and 0. */
  predicate IsNumeric(j: Json) { j.JNumber? || j.JBool? }

  function NumericValue(j: Json): real
    requires IsNumeric(j)
  {
    if j.JNumber? then j.n else if j.b then 1.0 else 0.0
  }

  /** What one loop iteration does with one iterated element. */
  datatype Step = Skip | Keep(rect: Rect) | Fail

  /** One iteration of the parser's loop over a decoded element `item`:
      - an object lacking one of the four keys is skipped;
      - an object with the four keys whose values are not all numbers raises
        (min/max on a non-number), which ends the whole parse;
      - otherwise the clamped rectangle is kept when it has positive area;
      - for a string, `key in item` is a substring test and a list is tested for
        an equal element: when all four tests pass, indexing it by a key raises;
      - `key in item` raises on a number, a boolean or null. */
  function RectStep(item: Json): (st: Step)
    ensures st.Keep? ==> item.JObject? && InBounds(st.rect)
    ensures item.JObject? && !("x" in item.fields && "y" in item.fields && "width" in item.fields && "height" in item.fields) ==> st == Skip
    ensures item.JNull? || item.JBool? || item.JNumber? ==> st == Fail
  {
    match item
    case JObject(f) =>
      if !("x" in f && "y" in f && "width" in f && "height" in f) then Skip
      else if !(IsNumeric(f["x"]) && IsNumeric(f["y"]) && IsNumeric(f["width"]) && IsNumeric(f["height"])) then Fail
      else
        var r := ClampRect(NumericValue(f["x"]), NumericValue(f["y"]),
                           NumericValue(f["width"]), NumericValue(f["height"]));
        if r.width > 0.0 && r.height > 0.0 then Keep(r) else Skip
    case JString(s) =>
      if Contains(s, "x") && Contains(s, "y") && Contains(s, "width") && Contains(s, "height") then Fail
      else Skip
    case JArray(xs) =>
      if JString("x") in xs && JString("y") in xs && JString("width") in xs && JString("height") in xs then Fail
      else Skip
    case _ => Fail
  }

  /** A string element, such as one character of an iterated string or a key of
      an iterated object, never yields a rectangle. */
  lemma StringNeverKept(s: string)
    ensures !RectStep(JString(s)).Keep?
  {
  }

  /** The rectangles kept by the loop over `items`, in order, or None when some
      element raises (the `try` around the loop then returns []). */
  function Survivors(items: seq<Json>): (r: Option<seq<Rect>>)
    ensures r.Some? ==> |r.value| <= |items|
    ensures r.Some? ==> forall k :: 0 <= k < |r.value| ==> InBounds(r.value[k])
  {
    if |items| == 0 then Some([])
    else
      match Survivors(items[..|items| - 1])
      case None => None
      case Some(rs) =>
        match RectStep(items[|items| - 1])
        case Fail => None
        case Skip => Some(rs)
        case Keep(rect) => Some(rs + [rect])
  }

  /** What `for rect in value` iterates over: a list's elements, a string's
      characters (each a one-character string); a number, boolean or null is not
      iterable. An object iterates over its keys; keys are strings, which never
      yield a rectangle (StringNeverKept), so no object can contribute one. */
  function Iterated(value: Json): Option<seq<Json>> {
    match value
    case JArray(items) => Some(items)
    case JString(s) => Some(seq(|s|, i requires 0 <= i < |s| => JString([s[i]])))
    case JObject(_) => Some([])
    case _ => None
  }

  /** The result of `parse_rectangle_data(text)`, where `loads` is the JSON
      decoder (None: the text does not decode). */
  function ParsedRectangles(text: string, loads: string -> Option<Json>): (rs: seq<Rect>)
    ensures forall k :: 0 <= k < |rs| ==> InBounds(rs[k])
    ensures text != "" && loads(text).Some? && loads(text).value.JArray? ==> |rs| <= |loads(text).value.items|
  {
    if text == "" then []
    else
      match loads(text)
      case None => []
      case Some(value) =>
        match Iterated(value)
        case None => []
        case Some(items) =>
          match Survivors(items)
          case None => []
          case Some(rs) => rs
  }

  /** The parser, as the source runs it: a loop that appends each kept rectangle
      and gives up with [] as soon as an element raises. */
  method ParseRectangleData(rectangleJson: string, loads: string -> Option<Json>)
    returns (validRectangles: seq<Rect>)
    ensures validRectangles == ParsedRectangles(rectangleJson, loads)
    ensures forall k :: 0 <= k < |validRectangles| ==> InBounds(validRectangles[k])
  {
    if rectangleJson == "" {
      return [];
    }
    var decoded := loads(rectangleJson);
    if decoded.None? {
      return [];
    }
    var iterated := Iterated(decoded.value);
    if iterated.None? {
      return [];
    }
    var rectangles := iterated.value;
    validRectangles := [];
    var i := 0;
    while i < |rectangles|
      invariant 0 <= i <= |rectangles|
      invariant Survivors(rectangles[..i]) == Some(validRectangles)
    {
      assert rectangles[..i + 1][..i] == rectangles[..i];
      match RectStep(rectangles[i]) {
        case Fail =>
          FailureIsFinal(rectangles, i + 1);
          return [];
        case Skip =>
        case Keep(rect) =>
          validRectangles := validRectangles + [rect];
      }
      i := i + 1;
    }
    assert rectangles[..i] == rectangles;
  }

  /** Once the loop has raised on a prefix, nothing after it can rescue the parse. */
  lemma {:induction false} FailureIsFinal(items: seq<Json>, n: nat)
    requires n <= |items|
    requires Survivors(items[..n]) == None
    ensures Survivors(items) == None
    decreases |items| - n
  {
    if n < |items| {
      assert items[..n + 1][..n] == items[..n];
      FailureIsFinal(items, n + 1);
    } else {
      assert items[..n] == items;
    }
  }

  /** Some element raising empties the whole result, whatever the others are. */
  lemma AnyFailureEmptiesAll(items: seq<Json>, i: nat)
    requires i < |items| && RectStep(items[i]) == Fail
    ensures Survivors(items) == None
  {
    assert items[..i + 1][..i] == items[..i];
    FailureIsFinal(items, i + 1);
  }

  /** The loop is compositional: the survivors of a concatenation are the
      survivors of each part, in order, unless either part raises. */
  lemma {:induction false} SurvivorsAppend(a: seq<Json>, b: seq<Json>)
    ensures Survivors(a + b) ==
      if Survivors(a).Some? && Survivors(b).Some? then Some(Survivors(a).value + Survivors(b).value)
      else None
    decreases |b|
  {
    if |b| == 0 {
      assert a + b == a;
      assert Survivors(b) == Some([]);
      if Survivors(a).Some? {
        assert Survivors(a).value + [] == Survivors(a).value;
      }
    } else {
      var b' := b[..|b| - 1];
      assert (a + b)[..|a + b| - 1] == a + b';
      assert (a + b)[|a + b| - 1] == b[|b| - 1];
      SurvivorsAppend(a, b');
      match Survivors(a) {
        case None =>
        case Some(ra) =>
          match Survivors(b') {
            case None =>
            case Some(rb) =>
              assert Survivors(a + b') == Some(ra + rb);
              match RectStep(b[|b| - 1]) {
                case Fail =>
                case Skip =>
                case Keep(rect) =>
                  assert ra + rb + [rect] == ra + (rb + [rect]);
              }
          }
      }
    }
  }

  /** An object lacking one of the four keys is skipped on its own: the result is
      what it would be without that element. */
  lemma MissingKeySkipped(before: seq<Json>, item: Json, after: seq<Json>)
    requires item.JObject?
    requires !("x" in item.fields && "y" in item.fields && "width" in item.fields && "height" in item.fields)
    ensures Survivors(before + [item] + after) == Survivors(before + after)
  {
    assert Survivors([item]) == Some([]) by {
      assert [item][..0] == [];
    }
    SurvivorsAppend(before, [item]);
    SurvivorsAppend(before + [item], after);
    SurvivorsAppend(before, after);
  }

  /** Elements that are never kept leave nothing: the loop yields [] or raises. */
  lemma {:induction false} NothingKeptYieldsNothing(items: seq<Json>)
    requires forall k :: 0 <= k < |items| ==> !RectStep(items[k]).Keep?
    ensures Survivors(items) == None || Survivors(items) == Some([])
  {
    if |items| > 0 {
      NothingKeptYieldsNothing(items[..|items| - 1]);
    }
  }

  /** Empty text, text that does not decode, and a decoded value that is not a
      list all yield no rectangles. */
  lemma MalformedInputYieldsEmpty(text: string, loads: string -> Option<Json>)
    requires text == "" || loads(text).None? || !loads(text).value.JArray?
    ensures ParsedRectangles(text, loads) == []
  {
    if text != "" && loads(text).Some? && loads(text).value.JString? {
      var items := Iterated(loads(text).value).value;
      NothingKeptYieldsNothing(items);
    }
  }

  /** One element that raises (a non-numeric coordinate, say) empties the result. */
  lemma BadElementEmptiesResult(text: string, loads: string -> Option<Json>, i: nat)
    requires text != "" && loads(text).Some? && loads(text).value.JArray?
    requires i < |loads(text).value.items| && RectStep(loads(text).value.items[i]) == Fail
    ensures ParsedRectangles(text, loads) == []
  {
    AnyFailureEmptiesAll(loads(text).value.items, i);
  }

  /** The encoding of a rectangle as a JSON object with the four numeric keys. */
  function ToJson(r: Rect): Json {
    JObject(map["x" := JNumber(r.x), "y" := JNumber(r.y), "width" := JNumber(r.width), "height" := JNumber(r.height)])
  }

  function Serialize(rs: seq<Rect>): (items: seq<Json>)
    ensures |items| == |rs|
  {
    seq(|rs|, k requires 0 <= k < |rs| => ToJson(rs[k]))
  }

  /** A rectangle already within bounds with positive area is kept unchanged. */
  lemma InBoundsKeptUnchanged(r: Rect)
    requires InBounds(r)
    ensures RectStep(ToJson(r)) == Keep(r)
  {
    var f := ToJson(r).fields;
    assert f["x"] == JNumber(r.x) && f["y"] == JNumber(r.y);
    assert f["width"] == JNumber(r.width) && f["height"] == JNumber(r.height);
  }

  /** Parsing the parser's own output gives it back. */
  lemma {:induction false} ReparseSurvivors(rs: seq<Rect>)
    requires forall k :: 0 <= k < |rs| ==> InBounds(rs[k])
    ensures Survivors(Serialize(rs)) == Some(rs)
  {
    if |rs| > 0 {
      var rs' := rs[..|rs| - 1];
      assert Serialize(rs)[..|rs| - 1] == Serialize(rs');
      ReparseSurvivors(rs');
      InBoundsKeptUnchanged(rs[|rs| - 1]);
      assert rs' + [rs[|rs| - 1]] == rs;
    }
  }

  /** Idempotence: text that decodes to the serialised result of a parse parses
      to that same result. */
  lemma ParseIsIdempotent(text: string, loads: string -> Option<Json>,
                          text': string, loads': string -> Option<Json>)
    requires text' != ""
    requires loads'(text') == Some(JArray(Serialize(ParsedRectangles(text, loads))))
    ensures ParsedRectangles(text', loads') == ParsedRectangles(text, loads)
  {
    var rs := ParsedRectangles(text, loads);
    assert forall k :: 0 <= k < |rs| ==> InBounds(rs[k]);
    ReparseSurvivors(rs);
  }

  /** The documented clamping cases: x = 0.8 with width 0.3 keeps width 0.2,
      and a rectangle whose origin is (1, 1) has no area left and is dropped. */
  lemma ClampingExamples()
    ensures RectStep(ToJson(Rect(0.8, 0.2, 0.3, 0.4))) == Keep(Rect(0.8, 0.2, 0.2, 0.4))
    ensures RectStep(ToJson(Rect(1.0, 1.0, 0.3, 0.4))) == Skip
  {
    var f := ToJson(Rect(0.8, 0.2, 0.3, 0.4)).fields;
    assert f["x"] == JNumber(0.8) && f["y"] == JNumber(0.2);
    assert f["width"] == JNumber(0.3) && f["height"] == JNumber(0.4);
    var g := ToJson(Rect(1.0, 1.0, 0.3, 0.4)).fields;
    assert g["x"] == JNumber(1.0) && g["y"] == JNumber(1.0);
    assert g["width"] == JNumber(0.3) && g["height"] == JNumber(0.4);
  }

  // ---------------------------------------------------------------------
  // create_mask_from_rectangles
  // ---------------------------------------------------------------------

  /** A half-open block of pixels: columns [left, right), rows [top, bottom). */
  datatype Box = Box(left: int, top: int, right: int, bottom: int)

  predicate InBox(b: Box, row: int, col: int) {
    b.left <= col < b.right && b.top <= row < b.bottom
  }

  function IMax(a: int, b: int): int { if b > a then b else a }
  function IMin(a: int, b: int): int { if b < a then b else a }

  /** The pixels a rectangle covers on a `width` x `height` image: the rectangle
      is clamped again, its corners are scaled and floored (`int()` of a
      non-negative value), the start is clamped to [0, dim - 1] and the end is
      kept at least one pixel past the start. */
  function PixelBox(rect: Rect, width: int, height: int): (b: Box)
    ensures b.left < b.right && b.top < b.bottom
    ensures width >= 1 ==> 0 <= b.left && b.right <= width
    ensures height >= 1 ==> 0 <= b.top && b.bottom <= height
  {
    var r := ClampRect(rect.x, rect.y, rect.width, rect.height);
    var x1 := (r.x * width as real).Floor;
    var y1 := (r.y * height as real).Floor;
    var x2 := ((r.x + r.width) * width as real).Floor;
    var y2 := ((r.y + r.height) * height as real).Floor;
    var left := IMax(0, IMin(x1, width - 1));
    var top := IMax(0, IMin(y1, height - 1));
    Box(left, top, IMax(left + 1, IMin(x2, width)), IMax(top + 1, IMin(y2, height)))
  }

  /** Pixel (row, col) is masked iff some rectangle's pixel block contains it. */
  predicate Covered(rects: seq<Rect>, width: int, height: int, row: int, col: int) {
    exists i :: 0 <= i < |rects| && InBox(PixelBox(rects[i], width, height), row, col)
  }

  /** Paints a pixel block into the mask, clipped to the mask's bounds. */
  method FillBox(mask: array2<bool>, b: Box)
    modifies mask
    ensures forall r, c :: 0 <= r < mask.Length0 && 0 <= c < mask.Length1 ==>
      mask[r, c] == (old(mask[r, c]) || InBox(b, r, c))
  {
    var top, bottom := IMax(b.top, 0), IMin(b.bottom, mask.Length0);
    var left, right := IMax(b.left, 0), IMin(b.right, mask.Length1);
    var r := top;
    while r < bottom
      invariant top <= r
      invariant forall i, j :: 0 <= i < mask.Length0 && 0 <= j < mask.Length1 ==>
        mask[i, j] == (old(mask[i, j]) || (InBox(b, i, j) && i < r))
    {
      var c := left;
      while c < right
        invariant left <= c
        invariant forall i, j :: 0 <= i < mask.Length0 && 0 <= j < mask.Length1 ==>
          mask[i, j] == (old(mask[i, j]) || (InBox(b, i, j) && (i < r || (i == r && j < c))))
      {
        mask[r, c] := true;
        c := c + 1;
      }
      r := r + 1;
    }
  }

  /** The mask of a rectangle list on a `width` x `height` image (the image file
      is opened only for its size, which is passed here): shape (height, width),
      and a pixel is true iff some rectangle covers it. */
  method CreateMaskFromRectangles(width: nat, height: nat, rectangles: seq<Rect>)
    returns (mask: array2<bool>)
    ensures fresh(mask) && mask.Length0 == height && mask.Length1 == width
    ensures forall r, c :: 0 <= r < height && 0 <= c < width ==>
      mask[r, c] == Covered(rectangles, width, height, r, c)
  {
    mask := new bool[height, width]((r, c) => false);
    if |rectangles| == 0 {
      return;
    }
    var k := 0;
    while k < |rectangles|
      invariant 0 <= k <= |rectangles|
      invariant forall r, c :: 0 <= r < height && 0 <= c < width ==>
        mask[r, c] == Covered(rectangles[..k], width, height, r, c)
    {
      var b := PixelBox(rectangles[k], width, height);
      if b.right > b.left && b.bottom > b.top {
        FillBox(mask, b);
      }
      assert forall r, c :: Covered(rectangles[..k + 1], width, height, r, c) <==>
        Covered(rectangles[..k], width, height, r, c) || InBox(b, r, c) by {
        forall r, c
          ensures Covered(rectangles[..k + 1], width, height, r, c) <==>
            Covered(rectangles[..k], width, height, r, c) || InBox(b, r, c)
        {
          assert rectangles[..k + 1][k] == rectangles[k];
          assert forall i :: 0 <= i < k ==> rectangles[..k + 1][i] == rectangles[..k][i];
        }
      }
      k := k + 1;
    }
    assert rectangles[..k] == rectangles;
  }

  /** With no rectangles nothing is masked. */
  lemma EmptyListMasksNothing(width: int, height: int, row: int, col: int)
    ensures !Covered([], width, height, row, col)
  {
  }

  /** Every rectangle, even one with zero width or height, masks at least one
      in-bounds pixel of a non-empty image: the top-left pixel of its block. */
  lemma EveryRectangleMarksAPixel(rects: seq<Rect>, i: nat, width: int, height: int)
    requires i < |rects| && width >= 1 && height >= 1
    ensures var b := PixelBox(rects[i], width, height);
      0 <= b.top < height && 0 <= b.left < width && Covered(rects, width, height, b.top, b.left)
  {
    var b := PixelBox(rects[i], width, height);
    assert InBox(b, b.top, b.left);
  }

  /** A rectangle spanning the unit square masks every pixel. */
  lemma WholeImageRectangleCoversAll(width: int, height: int, row: int, col: int)
    requires 0 <= row < height && 0 <= col < width
    ensures Covered([Rect(0.0, 0.0, 1.0, 1.0)], width, height, row, col)
  {
    var b := PixelBox(Rect(0.0, 0.0, 1.0, 1.0), width, height);
    assert b == Box(0, 0, width, height);
    var rs := [Rect(0.0, 0.0, 1.0, 1.0)];
    assert InBox(PixelBox(rs[0], width, height), row, col);
  }

  /** The rectangle {0.2, 0.3, 0.4, 0.2} on a 200 x 150 image covers columns
      40..119 and rows 45..74: pixel (row 50, column 60) is masked and pixel
      (10, 10) is not. */
  lemma RasterExample()
    ensures PixelBox(Rect(0.2, 0.3, 0.4, 0.2), 200, 150) == Box(40, 45, 120, 75)
    ensures Covered([Rect(0.2, 0.3, 0.4, 0.2)], 200, 150, 50, 60)
    ensures !Covered([Rect(0.2, 0.3, 0.4, 0.2)], 200, 150, 10, 10)
  {
    var b := PixelBox(Rect(0.2, 0.3, 0.4, 0.2), 200, 150);
    assert b == Box(40, 45, 120, 75);
    var rs := [Rect(0.2, 0.3, 0.4, 0.2)];
    assert InBox(PixelBox(rs[0], 200, 150), 50, 60);
  }

  /** The centred rectangle {0.25, 0.25, 0.5, 0.5} on a 200 x 150 image masks
      pixel (row 75, column 100) and leaves pixel (5, 5) alone. */
  lemma CentredRasterExample()
    ensures Covered([Rect(0.25, 0.25, 0.5, 0.5)], 200, 150, 75, 100)
    ensures !Covered([Rect(0.25, 0.25, 0.5, 0.5)], 200, 150, 5, 5)
  {
    var b := PixelBox(Rect(0.25, 0.25, 0.5, 0.5), 200, 150);
    assert b == Box(50, 37, 150, 112);
    var rs := [Rect(0.25, 0.25, 0.5, 0.5)];
    assert InBox(PixelBox(rs[0], 200, 150), 75, 100);
  }

  // ---------------------------------------------------------------------
  // apply_mask_to_image and create_masked_image_file
  // ---------------------------------------------------------------------

  newtype byte = v: int | 0 <= v < 256

  /** An RGB pixel. */
  datatype Rgb = Rgb(red: byte, green: byte, blue: byte)

  /** The default fill colour, (0, 0, 0). */
  const Black: Rgb := Rgb(0, 0, 0)

  /** Copies the image's pixel array (`img_array.copy()`). */
  method CopyPixels(image: array2<Rgb>) returns (copy: array2<Rgb>)
    ensures fresh(copy) && copy.Length0 == image.Length0 && copy.Length1 == image.Length1
    ensures forall r, c :: 0 <= r < image.Length0 && 0 <= c < image.Length1 ==> copy[r, c] == image[r, c]
  {
    copy := new Rgb[image.Length0, image.Length1]((r, c) => Black);
    var r := 0;
    while r < image.Length0
      invariant 0 <= r <= image.Length0
      invariant forall i, j :: 0 <= i < r && 0 <= j < image.Length1 ==> copy[i, j] == image[i, j]
    {
      var c := 0;
      while c < image.Length1
        invariant 0 <= c <= image.Length1
        invariant forall i, j :: 0 <= i < r && 0 <= j < image.Length1 ==> copy[i, j] == image[i, j]
        invariant forall j :: 0 <= j < c ==> copy[r, j] == image[r, j]
      {
        copy[r, c] := image[r, c];
        c := c + 1;
      }
      r := r + 1;
    }
  }

  /** `pixels[mask] = color`: every masked pixel takes the colour in place. */
  method PaintMasked(pixels: array2<Rgb>, mask: array2<bool>, color: Rgb)
    requires mask.Length0 == pixels.Length0 && mask.Length1 == pixels.Length1
    modifies pixels
    ensures forall r, c :: 0 <= r < pixels.Length0 && 0 <= c < pixels.Length1 ==>
      pixels[r, c] == if mask[r, c] then color else old(pixels[r, c])
  {
    var r := 0;
    while r < pixels.Length0
      invariant 0 <= r <= pixels.Length0
      invariant forall i, j :: 0 <= i < pixels.Length0 && 0 <= j < pixels.Length1 ==>
        pixels[i, j] == if i < r && mask[i, j] then color else old(pixels[i, j])
    {
      var c := 0;
      while c < pixels.Length1
        invariant 0 <= c <= pixels.Length1
        invariant forall i, j :: 0 <= i < pixels.Length0 && 0 <= j < pixels.Length1 ==>
          pixels[i, j] == if (i < r || (i == r && j < c)) && mask[i, j] then color else old(pixels[i, j])
      {
        if mask[r, c] {
          pixels[r, c] := color;
        }
        c := c + 1;
      }
      r := r + 1;
    }
  }

  /** Paints the masked pixels of a copy of the image; the image itself is left
      as it was. The mask must have the image's shape. */
  method ApplyMaskToImage(image: array2<Rgb>, mask: array2<bool>, maskColor: Rgb := Black)
    returns (masked: array2<Rgb>)
    requires mask.Length0 == image.Length0 && mask.Length1 == image.Length1
    ensures fresh(masked) && masked.Length0 == image.Length0 && masked.Length1 == image.Length1
    ensures forall r, c :: 0 <= r < image.Length0 && 0 <= c < image.Length1 ==>
      masked[r, c] == if mask[r, c] then maskColor else image[r, c]
  {
    masked := CopyPixels(image);
    PaintMasked(masked, mask, maskColor);
  }

  /** Rasterise, then apply: the masked copy of an image and the output path
      (saving the file is not modelled). */
  method CreateMaskedImageFile(image: array2<Rgb>, outputPath: string, rectangles: seq<Rect>,
                               maskColor: Rgb := Black)
    returns (path: string, masked: array2<Rgb>)
    ensures path == outputPath
    ensures fresh(masked) && masked.Length0 == image.Length0 && masked.Length1 == image.Length1
    ensures forall r, c :: 0 <= r < image.Length0 && 0 <= c < image.Length1 ==>
      masked[r, c] == if Covered(rectangles, image.Length1, image.Length0, r, c) then maskColor else image[r, c]
  {
    var mask := CreateMaskFromRectangles(image.Length1, image.Length0, rectangles);
    masked := ApplyMaskToImage(image, mask, maskColor);
    path := outputPath;
  }

  // ---------------------------------------------------------------------
  // get_mask_statistics
  // ---------------------------------------------------------------------

  datatype MaskStatistics = MaskStatistics(
    totalPixels: int,
    maskedPixels: int,
    unmaskedPixels: int,
    maskPercentage: real,
    unmaskedPercentage: real)

  /** Number of true cells among the first `cols` cells of row `row`. */
  function CountRow(mask: array2<bool>, row: nat, cols: nat): (n: nat)
    reads mask
    requires row < mask.Length0 && cols <= mask.Length1
    ensures n <= cols
  {
    if cols == 0 then 0
    else CountRow(mask, row, cols - 1) + (if mask[row, cols - 1] then 1 else 0)
  }

  /** Number of true cells in the first `rows` rows (`np.sum(mask)` for all rows). */
  function CountMasked(mask: array2<bool>, rows: nat): (n: nat)
    reads mask
    requires rows <= mask.Length0
    ensures n <= rows * mask.Length1
  {
    if rows == 0 then 0
    else CountMasked(mask, rows - 1) + CountRow(mask, rows - 1, mask.Length1)
  }

  /** Area accounting of a mask: masked and unmasked pixels make up the total,
      and the two percentages are 0 for an empty mask and otherwise lie in
      [0, 100] and add up to 100. */
  function GetMaskStatistics(mask: array2<bool>): (s: MaskStatistics)
    reads mask
    ensures s.totalPixels == mask.Length0 * mask.Length1
    ensures 0 <= s.maskedPixels <= s.totalPixels
    ensures s.maskedPixels + s.unmaskedPixels == s.totalPixels
    ensures s.totalPixels == 0 ==> s.maskPercentage == 0.0 && s.unmaskedPercentage == 0.0
    ensures s.maskedPixels == CountMasked(mask, mask.Length0)
    ensures s.totalPixels > 0 ==>
      && s.maskPercentage == s.maskedPixels as real / s.totalPixels as real * 100.0
      && s.unmaskedPercentage == s.unmaskedPixels as real / s.totalPixels as real * 100.0
      && 0.0 <= s.maskPercentage <= 100.0
      && 0.0 <= s.unmaskedPercentage <= 100.0
      && s.maskPercentage + s.unmaskedPercentage == 100.0
  {
    var total := mask.Length0 * mask.Length1;
    var masked := CountMasked(mask, mask.Length0);
    var unmasked := total - masked;
    var t, m, u := total as real, masked as real, unmasked as real;
    if total > 0 then
      PercentagesAddUp(m, u, t);
      MaskStatistics(total, masked, unmasked, m / t * 100.0, u / t * 100.0)
    else
      MaskStatistics(total, masked, unmasked, 0.0, 0.0)
  }

  /** Shares of a positive total expressed in percent lie in [0, 100] and add up to 100. */
  lemma PercentagesAddUp(m: real, u: real, t: real)
    requires 0.0 <= m && 0.0 <= u && m + u == t && t > 0.0
    ensures 0.0 <= m / t * 100.0 <= 100.0 && 0.0 <= u / t * 100.0 <= 100.0
    ensures m / t * 100.0 + u / t * 100.0 == 100.0
  {
    assert m / t + u / t == (m + u) / t;
    assert (m + u) / t == 1.0;
    assert m / t <= 1.0 by { assert m <= t; }
    assert u / t <= 1.0 by { assert u <= t; }
  }

  /** A mask with no true cell counts no masked pixel. */
  lemma {:induction false} ClearMaskCountsNothing(mask: array2<bool>, rows: nat)
    requires rows <= mask.Length0
    requires forall r, c :: 0 <= r < mask.Length0 && 0 <= c < mask.Length1 ==> !mask[r, c]
    ensures CountMasked(mask, rows) == 0
  {
    if rows > 0 {
      ClearMaskCountsNothing(mask, rows - 1);
      ClearRowCountsNothing(mask, rows - 1, mask.Length1);
    }
  }

  lemma {:induction false} ClearRowCountsNothing(mask: array2<bool>, row: nat, cols: nat)
    requires row < mask.Length0 && cols <= mask.Length1
    requires forall c :: 0 <= c < mask.Length1 ==> !mask[row, c]
    ensures CountRow(mask, row, cols) == 0
  {
    if cols > 0 {
      ClearRowCountsNothing(mask, row, cols - 1);
    }
  }

  /** A mask whose every cell is true counts every pixel. */
  lemma {:induction false} FullMaskCountsAll(mask: array2<bool>, rows: nat)
    requires rows <= mask.Length0
    requires forall r, c :: 0 <= r < mask.Length0 && 0 <= c < mask.Length1 ==> mask[r, c]
    ensures CountMasked(mask, rows) == rows * mask.Length1
  {
    if rows > 0 {
      FullMaskCountsAll(mask, rows - 1);
      FullRowCountsAll(mask, rows - 1, mask.Length1);
      assert (rows - 1) * mask.Length1 + mask.Length1 == rows * mask.Length1;
    }
  }

  lemma {:induction false} FullRowCountsAll(mask: array2<bool>, row: nat, cols: nat)
    requires row < mask.Length0 && cols <= mask.Length1
    requires forall c :: 0 <= c < mask.Length1 ==> mask[row, c]
    ensures CountRow(mask, row, cols) == cols
  {
    if cols > 0 {
      FullRowCountsAll(mask, row, cols - 1);
    }
  }

  /** Two masks of one shape that differ in exactly one cell, false in `before`
      and true in `after`. */
  ghost predicate OneCellSet(before: array2<bool>, after: array2<bool>, row: int, col: int)
    reads before, after
  {
    && before.Length0 == after.Length0 && before.Length1 == after.Length1
    && 0 <= row < before.Length0 && 0 <= col < before.Length1
    && !before[row, col] && after[row, col]
    && forall r, c :: 0 <= r < before.Length0 && 0 <= c < before.Length1 && (r != row || c != col) ==>
         before[r, c] == after[r, c]
  }

  lemma {:induction false} OneCellSetRow(before: array2<bool>, after: array2<bool>, row: int, col: int, r: nat, cols: nat)
    requires OneCellSet(before, after, row, col)
    requires r < before.Length0 && cols <= before.Length1
    ensures CountRow(after, r, cols) == CountRow(before, r, cols) + (if r == row && col < cols then 1 else 0)
  {
    if cols > 0 {
      OneCellSetRow(before, after, row, col, r, cols - 1);
    }
  }

  lemma {:induction false} OneCellSetRows(before: array2<bool>, after: array2<bool>, row: int, col: int, rows: nat)
    requires OneCellSet(before, after, row, col)
    requires rows <= before.Length0
    ensures CountMasked(after, rows) == CountMasked(before, rows) + (if row < rows then 1 else 0)
  {
    if rows > 0 {
      OneCellSetRows(before, after, row, col, rows - 1);
      OneCellSetRow(before, after, row, col, rows - 1, before.Length1);
    }
  }

  /** The count is the number of true cells: setting one false cell of a mask
      raises the masked count by exactly one and lowers the unmasked count by
      one (with ClearMaskCountsNothing this determines the count of every mask). */
  lemma SettingOneCellCountsOneMore(before: array2<bool>, after: array2<bool>, row: int, col: int)
    requires OneCellSet(before, after, row, col)
    ensures GetMaskStatistics(after).maskedPixels == GetMaskStatistics(before).maskedPixels + 1
    ensures GetMaskStatistics(after).unmaskedPixels == GetMaskStatistics(before).unmaskedPixels - 1
  {
    OneCellSetRows(before, after, row, col, before.Length0);
  }

  /** An all-false mask reports 0 masked pixels; a non-empty one reports 100%
      unmasked. An all-true mask reports every pixel masked. */
  lemma UniformMaskStatistics(mask: array2<bool>)
    ensures (forall r, c :: 0 <= r < mask.Length0 && 0 <= c < mask.Length1 ==> !mask[r, c]) ==>
      GetMaskStatistics(mask).maskedPixels == 0 &&
      (mask.Length0 * mask.Length1 > 0 ==> GetMaskStatistics(mask).unmaskedPercentage == 100.0)
    ensures (forall r, c :: 0 <= r < mask.Length0 && 0 <= c < mask.Length1 ==> mask[r, c]) ==>
      GetMaskStatistics(mask).unmaskedPixels == 0 &&
      (mask.Length0 * mask.Length1 > 0 ==> GetMaskStatistics(mask).maskPercentage == 100.0)
  {
    if forall r, c :: 0 <= r < mask.Length0 && 0 <= c < mask.Length1 ==> !mask[r, c] {
      ClearMaskCountsNothing(mask, mask.Length0);
    }
    if forall r, c :: 0 <= r < mask.Length0 && 0 <= c < mask.Length1 ==> mask[r, c] {
      FullMaskCountsAll(mask, mask.Length0);
    }
  }

  // ---------------------------------------------------------------------
  // validate_rectangles_match
  // ---------------------------------------------------------------------

  function Abs(v: real): real { if v < 0.0 then -v else v }

  /** The four fields of two rectangles differ by at most `tolerance` each. */
  predicate FieldsClose(r1: Rect, r2: Rect, tolerance: real) {
    && Abs(r1.x - r2.x) <= tolerance
    && Abs(r1.y - r2.y) <= tolerance
    && Abs(r1.width - r2.width) <= tolerance
    && Abs(r1.height - r2.height) <= tolerance
  }

  /** The scan over paired rectangles, stopping at the first field too far apart. */
  function PairsClose(rects1: seq<Rect>, rects2: seq<Rect>, tolerance: real): (ok: bool)
    requires |rects1| == |rects2|
    ensures ok <==> forall i :: 0 <= i < |rects1| ==> FieldsClose(rects1[i], rects2[i], tolerance)
  {
    if |rects1| == 0 then true
    else if !FieldsClose(rects1[0], rects2[0], tolerance) then false
    else
      var ok := PairsClose(rects1[1..], rects2[1..], tolerance);
      assert forall i :: 1 <= i < |rects1| ==> rects1[1..][i - 1] == rects1[i] && rects2[1..][i - 1] == rects2[i];
      ok
  }

  /** Two rectangle lists match when they have the same length and every paired
      field differs by at most `tolerance`. */
  function ValidateRectanglesMatch(rects1: seq<Rect>, rects2: seq<Rect>, tolerance: real := 0.01): (ok: bool)
    ensures ok <==> (|rects1| == |rects2| &&
      forall i :: 0 <= i < |rects1| ==> FieldsClose(rects1[i], rects2[i], tolerance))
  {
    if |rects1| != |rects2| then false else PairsClose(rects1, rects2, tolerance)
  }

  /** Matching does not depend on which list comes first. */
  lemma MatchIsSymmetric(rects1: seq<Rect>, rects2: seq<Rect>, tolerance: real)
    ensures ValidateRectanglesMatch(rects1, rects2, tolerance) == ValidateRectanglesMatch(rects2, rects1, tolerance)
  {
  }

  /** Every list matches itself under a non-negative tolerance. */
  lemma MatchIsReflexive(rects: seq<Rect>, tolerance: real)
    requires tolerance >= 0.0
    ensures ValidateRectanglesMatch(rects, rects, tolerance)
  {
  }
}
