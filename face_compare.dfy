/** Face comparison with fallback detection: the plan of image variations, the
    conservative cascade post-filter, the ordered detection strategies, and the
    all-pairs aggregation of embedding distances into a verdict. The face
    library, the cascade classifier and the image decoder are foreign: they
    appear as functions passed in, whose calls may raise. */
module FaceCompare {

  import opened Outcomes
  import opened PyStrings

  /** A face embedding: a fixed-length real vector. */
  type Embedding = seq<real>

  /** A decoded image, known by the path it came from and its size. */
  datatype Picture = Picture(source: string, width: nat, height: nat)

  /** How a variation is derived from the decoded picture. */
  datatype Adjustment = Unchanged | Downscaled | ContrastEnhanced | Brightened | Halved

  /** One image variation: its label, its derivation and its size. */
  datatype Variation = Variation(name: string, adjustment: Adjustment, width: nat, height: nat, picture: Picture)

  /** The learned detector's two models. */
  datatype Model = Hog | Cnn

  /** A face location in the face library's (top, right, bottom, left) order. */
  datatype Region = Region(top: int, right: int, bottom: int, left: int)

  /** A cascade detection in OpenCV's (x, y, w, h) order. */
  datatype Detection = Detection(x: int, y: int, w: nat, h: nat)

  /** The face library: decoding, locating, encoding and distance. Each call
      but the distance may raise. `faceLocations(v, model, upsample)`. */
  datatype Recognizer = Recognizer(
    loadImageFile: string -> Outcome<Picture>,
    faceLocations: (Variation, Model, nat) -> Outcome<seq<Region>>,
    faceEncodings: (Variation, seq<Region>) -> Outcome<seq<Embedding>>,
    faceDistance: (Embedding, Embedding) -> real)

  /** The cascade classifier's multi-scale detection, which may raise. */
  type Cascade = Variation -> Outcome<seq<Detection>>

  // ---------------------------------------------------------------------
  // preprocess_image_variations
  // ---------------------------------------------------------------------

  /** Longest side a variation may have before the picture is downscaled. */
  const MaxSide: nat := 1200

  function Longest(p: Picture): nat { if p.width >= p.height then p.width else p.height }

  /** `int(side * (1200 / longest))`. */
  function ScaledSide(side: nat, longest: nat): nat
    requires longest > 0
  {
    ((side as real) * ((MaxSide as real) / (longest as real))).Floor
  }

  lemma ScaledSideBounds(side: nat, longest: nat)
    requires 0 < longest && side <= longest
    ensures ScaledSide(side, longest) <= MaxSide
    ensures side == longest ==> ScaledSide(side, longest) == MaxSide
  {
    var q := (MaxSide as real) / (longest as real);
    assert (longest as real) * q == MaxSide as real;
    assert (side as real) * q <= (longest as real) * q;
  }

  /** The variations tried, in order. A picture whose longest side exceeds 1200
      gives one variation, "Original resized", scaled so that its longest side is
      exactly 1200. Any other picture gives four: "Original", "Enhanced contrast",
      "Brightened" (all at the picture's size) and "Smaller" at half size. */
  function VariationPlan(p: Picture): (vs: seq<Variation>)
    ensures 0 < |vs|
    ensures forall i :: 0 <= i < |vs| ==> vs[i].picture == p
    ensures forall i :: 0 <= i < |vs| ==> vs[i].width <= MaxSide && vs[i].height <= MaxSide
    ensures Longest(p) > MaxSide ==>
      && |vs| == 1
      && vs[0].name == "Original resized" && vs[0].adjustment == Downscaled
      && vs[0].width == ScaledSide(p.width, Longest(p)) && vs[0].height == ScaledSide(p.height, Longest(p))
      && (vs[0].width == MaxSide || vs[0].height == MaxSide)
    ensures Longest(p) <= MaxSide ==>
      && |vs| == 4
      && vs[0] == Variation("Original", Unchanged, p.width, p.height, p)
      && vs[1] == Variation("Enhanced contrast", ContrastEnhanced, p.width, p.height, p)
      && vs[2] == Variation("Brightened", Brightened, p.width, p.height, p)
      && vs[3] == Variation("Smaller", Halved, p.width / 2, p.height / 2, p)
  {
    var longest := Longest(p);
    if longest > MaxSide then
      ScaledSideBounds(p.width, longest);
      ScaledSideBounds(p.height, longest);
      [Variation("Original resized", Downscaled, ScaledSide(p.width, longest), ScaledSide(p.height, longest), p)]
    else
      [ Variation("Original", Unchanged, p.width, p.height, p),
        Variation("Enhanced contrast", ContrastEnhanced, p.width, p.height, p),
        Variation("Brightened", Brightened, p.width, p.height, p),
        Variation("Smaller", Halved, p.width / 2, p.height / 2, p) ]
  }

  // ---------------------------------------------------------------------
  // The cascade post-filter of detect_with_opencv_fallback
  // ---------------------------------------------------------------------

  /** Width over height within [0.8, 1.25]; a zero height gives an infinite or
      undefined ratio, which fails the test. */
  predicate SquareEnough(d: Detection) {
    d.h > 0 && 0.8 <= (d.w as real) / (d.h as real) <= 1.25
  }

  function ToRegion(d: Detection): Region {
    Region(d.y, d.x + d.w, d.y + d.h, d.x)
  }

  /** The kept detections, converted, in input order. */
  function CascadeFaces(ds: seq<Detection>): (faces: seq<Region>)
    ensures |faces| <= |ds|
    ensures forall k :: 0 <= k < |faces| ==>
      var f := faces[k];
      f.bottom - f.top > 0 && 0.8 <= ((f.right - f.left) as real) / ((f.bottom - f.top) as real) <= 1.25
  {
    if |ds| == 0 then []
    else
      var d := ds[|ds| - 1];
      CascadeFaces(ds[..|ds| - 1]) + if SquareEnough(d) then [ToRegion(d)] else []
  }

  /** A region is returned iff it is the conversion of a kept detection. */
  lemma {:induction false} CascadeFacesMembership(ds: seq<Detection>, f: Region)
    ensures f in CascadeFaces(ds) <==> exists i :: 0 <= i < |ds| && SquareEnough(ds[i]) && f == ToRegion(ds[i])
  {
    if |ds| > 0 {
      var ds' := ds[..|ds| - 1];
      CascadeFacesMembership(ds', f);
      assert forall i :: 0 <= i < |ds'| ==> ds'[i] == ds[i];
      if exists i :: 0 <= i < |ds| && SquareEnough(ds[i]) && f == ToRegion(ds[i]) {
        var i :| 0 <= i < |ds| && SquareEnough(ds[i]) && f == ToRegion(ds[i]);
        if i < |ds| - 1 {
          assert SquareEnough(ds'[i]) && f == ToRegion(ds'[i]);
        }
      }
    }
  }

  /** The filter keeps input order: filtering a concatenation concatenates. */
  lemma {:induction false} CascadeFacesAppend(a: seq<Detection>, b: seq<Detection>)
    ensures CascadeFaces(a + b) == CascadeFaces(a) + CascadeFaces(b)
    decreases |b|
  {
    if |b| == 0 {
      assert a + b == a;
    } else {
      var b' := b[..|b| - 1];
      assert (a + b)[..|a + b| - 1] == a + b';
      CascadeFacesAppend(a, b');
    }
  }

  // ---------------------------------------------------------------------
  // The detection strategies of get_face_encodings
  // ---------------------------------------------------------------------

  datatype Strategy = HogStrategy | Hog2xStrategy | CnnStrategy | OpenCvStrategy

  function StrategyName(s: Strategy): string {
    match s
    case HogStrategy => "HOG"
    case Hog2xStrategy => "HOG 2x"
    case CnnStrategy => "CNN"
    case OpenCvStrategy => "OpenCV fallback"
  }

  /** What one strategy on one variation gives: a raised exception, nothing
      (no location, or no encoding), or the encodings found. */
  datatype Attempt = Raised | Empty | Hit(encodings: seq<Embedding>)

  /** Encode at the given locations, if there are any. */
  function EncodeAt(lib: Recognizer, v: Variation, locations: Outcome<seq<Region>>): Attempt {
    match locations
    case Raises => Raised
    case Returns(locs) =>
      if locs == [] then Empty
      else
        match lib.faceEncodings(v, locs)
        case Raises => Raised
        case Returns(encs) => if encs == [] then Empty else Hit(encs)
  }

  /** `detect_with_opencv_fallback`: the filtered detections, or [] when the
      classifier raises. */
  function CascadeFallback(cascade: Cascade, v: Variation): seq<Region> {
    match cascade(v)
    case Raises => []
    case Returns(ds) => CascadeFaces(ds)
  }

  /** One strategy run on one variation. */
  function Probe(lib: Recognizer, cascade: Cascade, v: Variation, s: Strategy): Attempt {
    match s
    case HogStrategy => EncodeAt(lib, v, lib.faceLocations(v, Hog, 1))
    case Hog2xStrategy => EncodeAt(lib, v, lib.faceLocations(v, Hog, 2))
    case CnnStrategy => EncodeAt(lib, v, lib.faceLocations(v, Cnn, 1))
    case OpenCvStrategy => EncodeAt(lib, v, Returns(CascadeFallback(cascade, v)))
  }

  /** How the search for encodings ends: an exception escapes, some strategy on
      some variation (by index) finds faces, or nothing is found. */
  datatype Decision = Crash | Success(encodings: seq<Embedding>, strategy: Strategy, variation: nat) | NoFace

  /** The cascade detector on the last variation, the last resort. */
  function LastResort(lib: Recognizer, cascade: Cascade, vs: seq<Variation>): (d: Decision)
    requires |vs| > 0
    ensures d.Success? ==> d.strategy == OpenCvStrategy && d.variation == |vs| - 1 && 0 < |d.encodings|
    ensures d == NoFace <==> Probe(lib, cascade, vs[|vs| - 1], OpenCvStrategy) == Empty
  {
    match Probe(lib, cascade, vs[|vs| - 1], OpenCvStrategy)
    case Raised => Crash
    case Hit(e) => Success(e, OpenCvStrategy, |vs| - 1)
    case Empty => NoFace
  }

  /** After every variation failed under HOG: HOG with two upsamplings on the
      last variation; CNN only when that raised; then the cascade detector. */
  function Fallback(lib: Recognizer, cascade: Cascade, vs: seq<Variation>): (d: Decision)
    requires |vs| > 0
    ensures d.Success? ==> d.strategy != HogStrategy && d.variation == |vs| - 1 && 0 < |d.encodings|
    ensures d.Success? && d.strategy == CnnStrategy ==> Probe(lib, cascade, vs[|vs| - 1], Hog2xStrategy) == Raised
    ensures d == NoFace ==> Probe(lib, cascade, vs[|vs| - 1], OpenCvStrategy) == Empty
  {
    var last := vs[|vs| - 1];
    match Probe(lib, cascade, last, Hog2xStrategy)
    case Hit(e) => Success(e, Hog2xStrategy, |vs| - 1)
    case Empty => LastResort(lib, cascade, vs)
    case Raised =>
      match Probe(lib, cascade, last, CnnStrategy)
      case Raised => Crash
      case Hit(e) => Success(e, CnnStrategy, |vs| - 1)
      case Empty => LastResort(lib, cascade, vs)
  }

  /** HOG on variations i, i+1, ... in order; the first hit wins, the first
      exception escapes, and when all are empty the fallback ladder runs. */
  function Sweep(lib: Recognizer, cascade: Cascade, vs: seq<Variation>, i: nat): (d: Decision)
    requires 0 < |vs| && i <= |vs|
    ensures d.Success? ==> 0 < |d.encodings| && d.variation < |vs|
    decreases |vs| - i
  {
    if i == |vs| then Fallback(lib, cascade, vs)
    else
      match Probe(lib, cascade, vs[i], HogStrategy)
      case Raised => Crash
      case Hit(e) => Success(e, HogStrategy, i)
      case Empty => Sweep(lib, cascade, vs, i + 1)
  }

  function Decide(lib: Recognizer, cascade: Cascade, vs: seq<Variation>): Decision
    requires 0 < |vs|
  {
    Sweep(lib, cascade, vs, 0)
  }

  /** What `get_face_encodings` returns: encodings (None when no face was found)
      and a message. */
  datatype EncodingResult = EncodingResult(encodings: Option<seq<Embedding>>, message: string)

  const NoFacesMessage: string := "No faces detected with any method or image variation"

  function FoundMessage(count: nat, s: Strategy, varName: string): string {
    "Found " + NatToString(count) + " faces using " + StrategyName(s) + " on " + varName
  }

  function Report(d: Decision, vs: seq<Variation>): (r: Outcome<EncodingResult>)
    requires d.Success? ==> d.variation < |vs|
    ensures r.Raises? <==> d.Crash?
    ensures r.Returns? && r.value.encodings.Some? ==> d.Success? && r.value.encodings.value == d.encodings
    ensures r.Returns? && r.value.encodings.None? ==> d.NoFace? && r.value.message == NoFacesMessage
  {
    match d
    case Crash => Raises
    case Success(e, s, i) => Returns(EncodingResult(Some(e), FoundMessage(|e|, s, vs[i].name)))
    case NoFace => Returns(EncodingResult(None, NoFacesMessage))
  }

  /** The result of `get_face_encodings(path)`. */
  function EncodingsOf(lib: Recognizer, cascade: Cascade, path: string): (r: Outcome<EncodingResult>)
    ensures lib.loadImageFile(path).Raises? ==> r.Raises?
    ensures r.Returns? && r.value.encodings.Some? ==> 0 < |r.value.encodings.value|
  {
    match lib.loadImageFile(path)
    case Raises => Raises
    case Returns(p) =>
      var vs := VariationPlan(p);
      Report(Decide(lib, cascade, vs), vs)
  }

  // ---------------------------------------------------------------------
  // Properties of the strategy order
  // ---------------------------------------------------------------------

  /** Every variation from index k on is empty under plain HOG. */
  ghost predicate HogMissesFrom(lib: Recognizer, cascade: Cascade, vs: seq<Variation>, k: nat) {
    forall j :: k <= j < |vs| ==> Probe(lib, cascade, vs[j], HogStrategy) == Empty
  }

  /** The sweep from k either ends in plain HOG's success or crash on some
      variation, or, when HOG finds nothing on every remaining variation, hands
      over to the fallback ladder. */
  lemma {:induction false} SweepShape(lib: Recognizer, cascade: Cascade, vs: seq<Variation>, k: nat)
    requires 0 < |vs| && k <= |vs|
    ensures HogMissesFrom(lib, cascade, vs, k) ==> Sweep(lib, cascade, vs, k) == Fallback(lib, cascade, vs)
    ensures !HogMissesFrom(lib, cascade, vs, k) ==>
      exists i :: k <= i < |vs| && HogMissesFrom(lib, cascade, vs[..i], k) &&
        match Probe(lib, cascade, vs[i], HogStrategy)
        case Raised => Sweep(lib, cascade, vs, k) == Crash
        case Hit(e) => Sweep(lib, cascade, vs, k) == Success(e, HogStrategy, i)
        case Empty => false
    decreases |vs| - k
  {
    if k < |vs| {
      SweepShape(lib, cascade, vs, k + 1);
      var a := Probe(lib, cascade, vs[k], HogStrategy);
      if a != Empty {
        assert HogMissesFrom(lib, cascade, vs[..k], k);
      } else if !HogMissesFrom(lib, cascade, vs, k) {
        assert !HogMissesFrom(lib, cascade, vs, k + 1);
        var i :| k + 1 <= i < |vs| && HogMissesFrom(lib, cascade, vs[..i], k + 1) &&
          match Probe(lib, cascade, vs[i], HogStrategy)
          case Raised => Sweep(lib, cascade, vs, k + 1) == Crash
          case Hit(e) => Sweep(lib, cascade, vs, k + 1) == Success(e, HogStrategy, i)
          case Empty => false;
        assert HogMissesFrom(lib, cascade, vs[..i], k);
      }
    }
  }

  /** Plain HOG's result on variation i is the decision exactly when every
      earlier variation gave nothing under plain HOG and variation i gave faces. */
  lemma {:induction false} FirstHogHitWins(lib: Recognizer, cascade: Cascade, vs: seq<Variation>, i: nat, e: seq<Embedding>)
    requires 0 < |vs|
    ensures Decide(lib, cascade, vs) == Success(e, HogStrategy, i) <==>
      && i < |vs|
      && (forall j :: 0 <= j < i ==> Probe(lib, cascade, vs[j], HogStrategy) == Empty)
      && Probe(lib, cascade, vs[i], HogStrategy) == Hit(e)
  {
    SweepShape(lib, cascade, vs, 0);
    if !HogMissesFrom(lib, cascade, vs, 0) {
      var w :| 0 <= w < |vs| && HogMissesFrom(lib, cascade, vs[..w], 0) &&
        match Probe(lib, cascade, vs[w], HogStrategy)
        case Raised => Sweep(lib, cascade, vs, 0) == Crash
        case Hit(e) => Sweep(lib, cascade, vs, 0) == Success(e, HogStrategy, w)
        case Empty => false;
      assert forall j :: 0 <= j < w ==> vs[..w][j] == vs[j];
    } else {
      if i < |vs| {
        assert Probe(lib, cascade, vs[i], HogStrategy) == Empty;
      }
    }
  }

  /** A decision other than plain HOG's is reached only after plain HOG found
      nothing on every variation, and it concerns the last variation. */
  lemma FallbackFollowsFullSweep(lib: Recognizer, cascade: Cascade, vs: seq<Variation>)
    requires 0 < |vs|
    ensures var d := Decide(lib, cascade, vs);
      (d.NoFace? || (d.Success? && d.strategy != HogStrategy)) ==>
        && (forall j :: 0 <= j < |vs| ==> Probe(lib, cascade, vs[j], HogStrategy) == Empty)
        && d == Fallback(lib, cascade, vs)
        && (d.Success? ==> d.variation == |vs| - 1)
  {
    SweepShape(lib, cascade, vs, 0);
  }

  /** CNN runs only after HOG with two upsamplings raised, and its faces win
      exactly then. */
  lemma CnnOnlyAfterHog2xRaised(lib: Recognizer, cascade: Cascade, vs: seq<Variation>, e: seq<Embedding>, i: nat)
    requires 0 < |vs|
    ensures Decide(lib, cascade, vs) == Success(e, CnnStrategy, i) <==>
      && HogMissesFrom(lib, cascade, vs, 0)
      && i == |vs| - 1
      && Probe(lib, cascade, vs[i], Hog2xStrategy) == Raised
      && Probe(lib, cascade, vs[i], CnnStrategy) == Hit(e)
  {
    SweepShape(lib, cascade, vs, 0);
  }

  /** The cascade detector decides only when nothing before it did: HOG empty
      everywhere, HOG 2x not successful, and CNN (run only if HOG 2x raised)
      empty. */
  lemma CascadeIsLastResort(lib: Recognizer, cascade: Cascade, vs: seq<Variation>, e: seq<Embedding>, i: nat)
    requires 0 < |vs|
    ensures var last := vs[|vs| - 1];
      Decide(lib, cascade, vs) == Success(e, OpenCvStrategy, i) <==>
        && HogMissesFrom(lib, cascade, vs, 0)
        && i == |vs| - 1
        && !Probe(lib, cascade, last, Hog2xStrategy).Hit?
        && (Probe(lib, cascade, last, Hog2xStrategy) == Raised ==> Probe(lib, cascade, last, CnnStrategy) == Empty)
        && Probe(lib, cascade, last, OpenCvStrategy) == Hit(e)
  {
    SweepShape(lib, cascade, vs, 0);
  }

  /** No face at all: every strategy that ran gave nothing. */
  lemma NoFaceMeansAllEmpty(lib: Recognizer, cascade: Cascade, vs: seq<Variation>)
    requires 0 < |vs|
    ensures var last := vs[|vs| - 1];
      Decide(lib, cascade, vs) == NoFace <==>
        && HogMissesFrom(lib, cascade, vs, 0)
        && !Probe(lib, cascade, last, Hog2xStrategy).Hit?
        && (Probe(lib, cascade, last, Hog2xStrategy) == Raised ==> Probe(lib, cascade, last, CnnStrategy) == Empty)
        && Probe(lib, cascade, last, OpenCvStrategy) == Empty
  {
    SweepShape(lib, cascade, vs, 0);
  }

  /** What the caller sees: found encodings are never empty and come with the
      message naming their count, strategy and variation; no face gives None. */
  lemma ReportMeaning(lib: Recognizer, cascade: Cascade, path: string)
    ensures var r := EncodingsOf(lib, cascade, path);
      && (r.Raises? <==> (lib.loadImageFile(path).Raises? ||
                          Decide(lib, cascade, VariationPlan(lib.loadImageFile(path).value)).Crash?))
      && (r.Returns? && r.value.encodings.Some? ==>
            var vs := VariationPlan(lib.loadImageFile(path).value);
            var d := Decide(lib, cascade, vs);
            && d.Success?
            && 0 < |r.value.encodings.value|
            && r.value.encodings.value == d.encodings
            && r.value.message == "Found " + NatToString(|d.encodings|) + " faces using " + StrategyName(d.strategy) + " on " + vs[d.variation].name)
      && (r.Returns? && r.value.encodings.None? ==> r.value.message == NoFacesMessage)
  {
  }

  // ---------------------------------------------------------------------
  // The aggregation of compare_faces
  // ---------------------------------------------------------------------

  /** One compared pair: 1-based face numbers and their distance. */
  datatype Pair = Pair(face1: nat, face2: nat, distance: real)

  /** Face i of the first image against every face of the second, in order. */
  function RowPairs(dist: (Embedding, Embedding) -> real, i: nat, enc1: Embedding, encodings2: seq<Embedding>): (ps: seq<Pair>)
    ensures |ps| == |encodings2|
    ensures forall k :: 0 <= k < |ps| ==> ps[k] == Pair(i + 1, k + 1, dist(enc1, encodings2[k]))
  {
    if |encodings2| == 0 then []
    else
      var n := |encodings2| - 1;
      RowPairs(dist, i, enc1, encodings2[..n]) + [Pair(i + 1, n + 1, dist(enc1, encodings2[n]))]
  }

  /** Every pair, first image's faces in the outer order. */
  function AllPairs(dist: (Embedding, Embedding) -> real, encodings1: seq<Embedding>, encodings2: seq<Embedding>): (ps: seq<Pair>)
    ensures |ps| == |encodings1| * |encodings2|
  {
    if |encodings1| == 0 then []
    else
      var n := |encodings1| - 1;
      AllPairs(dist, encodings1[..n], encodings2) + RowPairs(dist, n, encodings1[n], encodings2)
  }

  /** The pairs at or under the tolerance, in order. */
  function WithinTolerance(ps: seq<Pair>, tolerance: real): (ms: seq<Pair>)
    ensures |ms| <= |ps|
    ensures forall k :: 0 <= k < |ms| ==> ms[k].distance <= tolerance
  {
    if |ps| == 0 then []
    else
      var p := ps[|ps| - 1];
      WithinTolerance(ps[..|ps| - 1], tolerance) + if p.distance <= tolerance then [p] else []
  }

  /** A real or positive infinity, the starting value of the best distance. */
  datatype ExtReal = Infinite | Finite(value: real)

  /** One step of `if distance < best: best = distance`. */
  function KeepBest(best: ExtReal, d: real): ExtReal {
    if best.Infinite? || d < best.value then Finite(d) else best
  }

  /** The best distance over the pairs in order. */
  function Lowest(ps: seq<Pair>): (best: ExtReal)
    ensures best.Infinite? <==> |ps| == 0
  {
    if |ps| == 0 then Infinite else KeepBest(Lowest(ps[..|ps| - 1]), ps[|ps| - 1].distance)
  }

  /** The confidence percentage; zero without any pair. A zero tolerance makes
      the division undefined or infinite, and the clamp at zero yields 0. */
  function Confidence(tolerance: real, best: ExtReal): (c: real)
    ensures 0.0 <= c
    ensures 0.0 < tolerance && best.Finite? && 0.0 <= best.value ==> c <= 100.0
    ensures 0.0 < tolerance ==> (0.0 < c <==> best.Finite? && best.value < tolerance)
  {
    if best.Infinite? || tolerance == 0.0 then 0.0
    else
      var raw := (tolerance - best.value) / tolerance * 100.0;
      if raw > 0.0 then raw else 0.0
  }

  /** Ordered by first face, then second face, strictly. */
  ghost predicate RowMajor(ps: seq<Pair>) {
    forall k, l :: 0 <= k < l < |ps| ==>
      ps[k].face1 < ps[l].face1 || (ps[k].face1 == ps[l].face1 && ps[k].face2 < ps[l].face2)
  }

  /** A pair is compared iff it is (i+1, j+1, distance of face i to face j). */
  lemma {:induction false} AllPairsMembership(dist: (Embedding, Embedding) -> real, encodings1: seq<Embedding>, encodings2: seq<Embedding>, p: Pair)
    ensures p in AllPairs(dist, encodings1, encodings2) <==>
      exists i, j :: 0 <= i < |encodings1| && 0 <= j < |encodings2| &&
        p == Pair(i + 1, j + 1, dist(encodings1[i], encodings2[j]))
  {
    if |encodings1| > 0 {
      var n := |encodings1| - 1;
      var e1 := encodings1[..n];
      AllPairsMembership(dist, e1, encodings2, p);
      var row := RowPairs(dist, n, encodings1[n], encodings2);
      if p in row {
        var k :| 0 <= k < |row| && row[k] == p;
        assert p == Pair(n + 1, k + 1, dist(encodings1[n], encodings2[k]));
      }
      if exists i, j :: 0 <= i < |encodings1| && 0 <= j < |encodings2| &&
           p == Pair(i + 1, j + 1, dist(encodings1[i], encodings2[j])) {
        var i, j :| 0 <= i < |encodings1| && 0 <= j < |encodings2| &&
          p == Pair(i + 1, j + 1, dist(encodings1[i], encodings2[j]));
        if i < n {
          assert e1[i] == encodings1[i];
        } else {
          assert row[j] == p;
        }
      }
    }
  }

  /** Pairs come in row-major order. */
  lemma {:induction false} AllPairsRowMajor(dist: (Embedding, Embedding) -> real, encodings1: seq<Embedding>, encodings2: seq<Embedding>)
    ensures RowMajor(AllPairs(dist, encodings1, encodings2))
    ensures forall k :: 0 <= k < |AllPairs(dist, encodings1, encodings2)| ==>
      1 <= AllPairs(dist, encodings1, encodings2)[k].face1 <= |encodings1|
  {
    if |encodings1| > 0 {
      var n := |encodings1| - 1;
      AllPairsRowMajor(dist, encodings1[..n], encodings2);
    }
  }

  /** Filtering keeps exactly the pairs within tolerance, in their order. */
  lemma {:induction false} WithinToleranceMembership(ps: seq<Pair>, tolerance: real, p: Pair)
    ensures p in WithinTolerance(ps, tolerance) <==> p in ps && p.distance <= tolerance
  {
    if |ps| > 0 {
      var ps' := ps[..|ps| - 1];
      WithinToleranceMembership(ps', tolerance, p);
      assert ps == ps' + [ps[|ps| - 1]];
    }
  }

  lemma {:induction false} WithinToleranceKeepsOrder(ps: seq<Pair>, tolerance: real)
    requires RowMajor(ps)
    ensures RowMajor(WithinTolerance(ps, tolerance))
  {
    if |ps| > 0 {
      var ps' := ps[..|ps| - 1];
      assert RowMajor(ps');
      WithinToleranceKeepsOrder(ps', tolerance);
      var ms' := WithinTolerance(ps', tolerance);
      var ms := WithinTolerance(ps, tolerance);
      forall k, l | 0 <= k < l < |ms|
        ensures ms[k].face1 < ms[l].face1 || (ms[k].face1 == ms[l].face1 && ms[k].face2 < ms[l].face2)
      {
        if |ms'| <= l {
          WithinToleranceMembership(ps', tolerance, ms'[k]);
          var m :| 0 <= m < |ps'| && ps'[m] == ms'[k];
          assert ps[m] == ms[k] && ps[|ps| - 1] == ms[l];
        }
      }
    }
  }

  /** The best distance is Infinite exactly without pairs, and otherwise the
      minimum of the distances, attained by some pair. */
  lemma {:induction false} LowestIsMinimum(ps: seq<Pair>)
    ensures Lowest(ps).Infinite? <==> |ps| == 0
    ensures Lowest(ps).Finite? ==>
      && (forall k :: 0 <= k < |ps| ==> Lowest(ps).value <= ps[k].distance)
      && (exists k :: 0 <= k < |ps| && Lowest(ps).value == ps[k].distance)
  {
    if |ps| > 0 {
      var ps' := ps[..|ps| - 1];
      LowestIsMinimum(ps');
      var b := Lowest(ps);
      assert forall k :: 0 <= k < |ps'| ==> ps'[k] == ps[k];
      if Lowest(ps').Finite? && b == Lowest(ps') {
        var k :| 0 <= k < |ps'| && Lowest(ps').value == ps'[k].distance;
        assert b.value == ps[k].distance;
      } else {
        assert b.value == ps[|ps| - 1].distance;
      }
    }
  }

  /** Some pair is within tolerance iff the best distance is. */
  lemma MatchIffBestWithinTolerance(ps: seq<Pair>, tolerance: real)
    ensures 0 < |WithinTolerance(ps, tolerance)| <==> Lowest(ps).Finite? && Lowest(ps).value <= tolerance
  {
    LowestIsMinimum(ps);
    if 0 < |WithinTolerance(ps, tolerance)| {
      var q := WithinTolerance(ps, tolerance)[0];
      WithinToleranceMembership(ps, tolerance, q);
    }
    if Lowest(ps).Finite? && Lowest(ps).value <= tolerance {
      var k :| 0 <= k < |ps| && Lowest(ps).value == ps[k].distance;
      WithinToleranceMembership(ps, tolerance, ps[k]);
    }
  }

  /** One step of the inner comparison loop: comparing face j extends the pairs
      seen so far by one, which updates the best distance and the matches. */
  lemma InnerStep(dist: (Embedding, Embedding) -> real, tolerance: real, done: seq<Pair>,
                  i: nat, enc1: Embedding, encodings2: seq<Embedding>, j: nat)
    requires j < |encodings2|
    ensures var d := dist(enc1, encodings2[j]);
      var before := done + RowPairs(dist, i, enc1, encodings2[..j]);
      var after := done + RowPairs(dist, i, enc1, encodings2[..j + 1]);
      && Lowest(after) == KeepBest(Lowest(before), d)
      && WithinTolerance(after, tolerance) ==
           WithinTolerance(before, tolerance) + if d <= tolerance then [Pair(i + 1, j + 1, d)] else []
  {
    var p := Pair(i + 1, j + 1, dist(enc1, encodings2[j]));
    var before := done + RowPairs(dist, i, enc1, encodings2[..j]);
    var after := done + RowPairs(dist, i, enc1, encodings2[..j + 1]);
    assert encodings2[..j + 1][..j] == encodings2[..j];
    assert after == before + [p];
    assert after[..|after| - 1] == before;
  }

  /** One step of the outer loop: the pairs of the first i + 1 faces are those of
      the first i followed by face i's full row. */
  lemma OuterStep(dist: (Embedding, Embedding) -> real, tolerance: real,
                  encodings1: seq<Embedding>, encodings2: seq<Embedding>, i: nat)
    requires i < |encodings1|
    ensures var done := AllPairs(dist, encodings1[..i], encodings2);
      var row := RowPairs(dist, i, encodings1[i], encodings2[..|encodings2|]);
      && Lowest(AllPairs(dist, encodings1[..i + 1], encodings2)) == Lowest(done + row)
      && WithinTolerance(AllPairs(dist, encodings1[..i + 1], encodings2), tolerance) == WithinTolerance(done + row, tolerance)
  {
    assert encodings1[..i + 1][..i] == encodings1[..i];
    assert encodings2[..|encodings2|] == encodings2;
  }

  /** The outcome of comparing two sets of encodings. */
  datatype MatchResult = MatchResult(isMatch: bool, bestDistance: ExtReal, confidence: real, matches: seq<Pair>)

  /** The details `compare_faces` returns besides the verdict. */
  datatype Details = DetectionFailed | Summary(bestDistance: ExtReal, confidence: real)

  /** The verdict for two lists of encodings under a tolerance. */
  function Verdict(dist: (Embedding, Embedding) -> real, tolerance: real, encodings1: seq<Embedding>, encodings2: seq<Embedding>): (r: MatchResult)
    ensures r.isMatch <==> r.bestDistance.Finite? && r.bestDistance.value <= tolerance
    ensures r.bestDistance.Infinite? <==> |encodings1| == 0 || |encodings2| == 0
    ensures forall k :: 0 <= k < |r.matches| ==> r.matches[k].distance <= tolerance
  {
    var ps := AllPairs(dist, encodings1, encodings2);
    MatchIffBestWithinTolerance(ps, tolerance);
    var ms := WithinTolerance(ps, tolerance);
    MatchResult(|ms| > 0, Lowest(ps), Confidence(tolerance, Lowest(ps)), ms)
  }

  /** A match comes with positive confidence, and with a positive tolerance the
      converse holds too, except at a best distance exactly on the tolerance. */
  lemma ConfidenceAgreesWithMatch(dist: (Embedding, Embedding) -> real, tolerance: real, encodings1: seq<Embedding>, encodings2: seq<Embedding>)
    requires 0.0 < tolerance
    ensures var r := Verdict(dist, tolerance, encodings1, encodings2);
      && (0.0 < r.confidence ==> r.isMatch)
      && (r.isMatch ==> 0.0 < r.confidence || r.bestDistance == Finite(tolerance))
      && (r.isMatch <==> 0 < |encodings1| && 0 < |encodings2| && r.bestDistance.value <= tolerance)
  {
    var ps := AllPairs(dist, encodings1, encodings2);
    MatchIffBestWithinTolerance(ps, tolerance);
    LowestIsMinimum(ps);
  }

  /** One face each, at distance zero from each other: a single match at
      distance 0 with full confidence. */
  lemma IdenticalFacesMatchFully(dist: (Embedding, Embedding) -> real, tolerance: real, e: Embedding)
    requires 0.0 < tolerance && dist(e, e) == 0.0
    ensures Verdict(dist, tolerance, [e], [e]) == MatchResult(true, Finite(0.0), 100.0, [Pair(1, 1, 0.0)])
  {
    assert [e][..0] == [];
    var ps := AllPairs(dist, [e], [e]);
    assert ps == [Pair(1, 1, 0.0)];
    assert ps[..0] == [];
    assert Lowest(ps) == Finite(0.0);
    assert WithinTolerance(ps, tolerance) == [Pair(1, 1, 0.0)];
    assert (tolerance - 0.0) / tolerance == 1.0;
    assert Confidence(tolerance, Finite(0.0)) == 100.0;
  }

  // ---------------------------------------------------------------------
  // FaceComparator
  // ---------------------------------------------------------------------

  /** The comparator: a tolerance and a cascade classifier. */
  class FaceComparator {
    const tolerance: real
    const faceCascade: Cascade

    constructor(faceCascade: Cascade, tolerance: real := 0.45)
      ensures this.tolerance == tolerance && this.faceCascade == faceCascade
    {
      this.tolerance := tolerance;
      this.faceCascade := faceCascade;
    }

    /** Decodes the picture and builds its variations in plan order. */
    static method PreprocessImageVariations(lib: Recognizer, imagePath: string) returns (variations: Outcome<seq<Variation>>)
      ensures variations.Raises? <==> lib.loadImageFile(imagePath).Raises?
      ensures variations.Returns? ==> variations.value == VariationPlan(lib.loadImageFile(imagePath).value)
    {
      var loaded := lib.loadImageFile(imagePath);
      if loaded.Raises? {
        return Raises;
      }
      var p := loaded.value;
      var vs: seq<Variation> := [];
      if Longest(p) > MaxSide {
        var longest := Longest(p);
        vs := vs + [Variation("Original resized", Downscaled, ScaledSide(p.width, longest), ScaledSide(p.height, longest), p)];
      } else {
        vs := vs + [Variation("Original", Unchanged, p.width, p.height, p)];
        vs := vs + [Variation("Enhanced contrast", ContrastEnhanced, p.width, p.height, p)];
        vs := vs + [Variation("Brightened", Brightened, p.width, p.height, p)];
        vs := vs + [Variation("Smaller", Halved, p.width / 2, p.height / 2, p)];
      }
      return Returns(vs);
    }

    /** The cascade detections that are nearly square, converted to
        (top, right, bottom, left); nothing when the classifier raises. */
    method DetectWithOpenCvFallback(image: Variation) returns (goodFaces: seq<Region>)
      ensures goodFaces == CascadeFallback(faceCascade, image)
    {
      var detected := faceCascade(image);
      if detected.Raises? {
        return [];
      }
      var faces := detected.value;
      goodFaces := [];
      for k := 0 to |faces|
        invariant goodFaces == CascadeFaces(faces[..k])
      {
        var d := faces[k];
        assert faces[..k + 1][..k] == faces[..k];
        if SquareEnough(d) {
          goodFaces := goodFaces + [ToRegion(d)];
        }
      }
      assert faces[..|faces|] == faces;
    }

    /** Tries the strategies in order and reports what the first successful one
        found; an exception outside the guarded HOG 2x step escapes. */
    method GetFaceEncodings(lib: Recognizer, imagePath: string) returns (result: Outcome<EncodingResult>)
      ensures result == EncodingsOf(lib, faceCascade, imagePath)
    {
      var variations := PreprocessImageVariations(lib, imagePath);
      if variations.Raises? {
        return Raises;
      }
      var vs := variations.value;
      var i := 0;
      while i < |vs|
        invariant 0 <= i <= |vs|
        invariant Decide(lib, faceCascade, vs) == Sweep(lib, faceCascade, vs, i)
      {
        var v := vs[i];
        var faceLocations := lib.faceLocations(v, Hog, 1);
        if faceLocations.Raises? {
          return Raises;
        }
        if faceLocations.value != [] {
          var encodings := lib.faceEncodings(v, faceLocations.value);
          if encodings.Raises? {
            return Raises;
          }
          if encodings.value != [] {
            return Returns(EncodingResult(Some(encodings.value), FoundMessage(|encodings.value|, HogStrategy, v.name)));
          }
        }
        i := i + 1;
      }
      var last := vs[|vs| - 1];
      var hog2xRaised := false;
      var hog2x := lib.faceLocations(last, Hog, 2);
      if hog2x.Raises? {
        hog2xRaised := true;
      } else if hog2x.value != [] {
        var encodings := lib.faceEncodings(last, hog2x.value);
        if encodings.Raises? {
          hog2xRaised := true;
        } else if encodings.value != [] {
          return Returns(EncodingResult(Some(encodings.value), FoundMessage(|encodings.value|, Hog2xStrategy, last.name)));
        }
      }
      if hog2xRaised {
        var cnn := lib.faceLocations(last, Cnn, 1);
        if cnn.Raises? {
          return Raises;
        }
        if cnn.value != [] {
          var encodings := lib.faceEncodings(last, cnn.value);
          if encodings.Raises? {
            return Raises;
          }
          if encodings.value != [] {
            return Returns(EncodingResult(Some(encodings.value), FoundMessage(|encodings.value|, CnnStrategy, last.name)));
          }
        }
      }
      var opencvFaces := DetectWithOpenCvFallback(last);
      if opencvFaces != [] {
        var encodings := lib.faceEncodings(last, opencvFaces);
        if encodings.Raises? {
          return Raises;
        }
        if encodings.value != [] {
          return Returns(EncodingResult(Some(encodings.value), FoundMessage(|encodings.value|, OpenCvStrategy, last.name)));
        }
      }
      return Returns(EncodingResult(None, NoFacesMessage));
    }

    /** Compares every face of the first list with every face of the second. */
    method CompareEncodings(dist: (Embedding, Embedding) -> real, encodings1: seq<Embedding>, encodings2: seq<Embedding>)
      returns (result: MatchResult)
      ensures result == Verdict(dist, tolerance, encodings1, encodings2)
    {
      var bestDistance := Infinite;
      var matches: seq<Pair> := [];
      for i := 0 to |encodings1|
        invariant bestDistance == Lowest(AllPairs(dist, encodings1[..i], encodings2))
        invariant matches == WithinTolerance(AllPairs(dist, encodings1[..i], encodings2), tolerance)
      {
        var enc1 := encodings1[i];
        ghost var done := AllPairs(dist, encodings1[..i], encodings2);
        assert encodings2[..0] == [];
        assert done + RowPairs(dist, i, enc1, encodings2[..0]) == done;
        for j := 0 to |encodings2|
          invariant bestDistance == Lowest(done + RowPairs(dist, i, enc1, encodings2[..j]))
          invariant matches == WithinTolerance(done + RowPairs(dist, i, enc1, encodings2[..j]), tolerance)
        {
          var distance := dist(enc1, encodings2[j]);
          InnerStep(dist, tolerance, done, i, enc1, encodings2, j);
          if distance <= tolerance {
            matches := matches + [Pair(i + 1, j + 1, distance)];
          }
          if bestDistance.Infinite? || distance < bestDistance.value {
            bestDistance := Finite(distance);
          }
        }
        OuterStep(dist, tolerance, encodings1, encodings2, i);
      }
      assert encodings1[..|encodings1|] == encodings1;
      result := MatchResult(|matches| > 0, bestDistance, Confidence(tolerance, bestDistance), matches);
    }

    /** Both images are analysed (an exception from either escapes); without
        faces in both, the comparison fails; otherwise the verdict and its best
        distance and confidence. */
    method CompareFaces(lib: Recognizer, image1Path: string, image2Path: string) returns (outcome: Outcome<(bool, Details)>)
      ensures var r1 := EncodingsOf(lib, faceCascade, image1Path);
              var r2 := EncodingsOf(lib, faceCascade, image2Path);
        && (outcome.Raises? <==> r1.Raises? || r2.Raises?)
        && (outcome.Returns? && (r1.value.encodings.None? || r2.value.encodings.None?) ==>
              outcome.value == (false, DetectionFailed))
        && (outcome.Returns? && r1.value.encodings.Some? && r2.value.encodings.Some? ==>
              var v := Verdict(lib.faceDistance, tolerance, r1.value.encodings.value, r2.value.encodings.value);
              outcome.value == (v.isMatch, Summary(v.bestDistance, v.confidence)))
    {
      var r1 := GetFaceEncodings(lib, image1Path);
      if r1.Raises? {
        return Raises;
      }
      var r2 := GetFaceEncodings(lib, image2Path);
      if r2.Raises? {
        return Raises;
      }
      var encodings1 := r1.value.encodings;
      var encodings2 := r2.value.encodings;
      if encodings1.None? || encodings2.None? {
        return Returns((false, DetectionFailed));
      }
      var result := CompareEncodings(lib.faceDistance, encodings1.value, encodings2.value);
      return Returns((result.isMatch, Summary(result.bestDistance, result.confidence)));
    }
  }
}
