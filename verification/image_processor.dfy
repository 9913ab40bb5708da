/** The matcher and the result assembly of the screenshot processor.
    Given the pixel size of an uploaded screenshot, the matcher scores every
    catalog entry (in catalog order) against the entry's pair for the input's
    orientation and keeps the first entry with the strictly lowest score.
    Scores are exact rationals here. */
module ImageProcessor {
  import opened Wrappers
  import opened AppleSpecs

  datatype Orientation = Portrait | Landscape {

    /** The tag reported in the match and in the processing result. */
    function Tag(): string {
      if Portrait? then "portrait" else "landscape"
    }
  }

  /** Portrait exactly when the input is taller than wide; a square is landscape. */
  function OrientationOf(width: int, height: int): Orientation {
    if height > width then Portrait else Landscape
  }

  /** The pair of an entry that is compared against an input of orientation o. */
  function Target(e: SpecEntry, o: Orientation): Dims {
    if o == Portrait then e.portrait else e.landscape
  }

  function AbsInt(x: int): nat {
    if x < 0 then -x else x
  }

  function AbsReal(x: real): real {
    if x < 0.0 then -x else x
  }

  /** How far an input is from a target pair; lower is closer. The distance
      between aspect ratios weighs 2 and the area difference relative to the
      target's area weighs 0.5. */
  function Score(width: int, height: int, target: Dims): (s: real)
    requires height != 0 && target.Positive()
    ensures s >= 0.0
  {
    var area := target.width * target.height;
    var aspectDiff := AbsReal(width as real / height as real - target.width as real / target.height as real);
    var sizeDiff := AbsInt(width * height - area) as real / area as real;
    aspectDiff * 2.0 + sizeDiff * 0.5
  }

  /** The scores of a catalog can be computed: the catalog's pairs are positive
      and, unless the loop has nothing to do, the input height is not zero
      (otherwise the first aspect-ratio division raises). */
  predicate CanScore(catalog: seq<SpecEntry>, height: int) {
    AllPositive(catalog) && (|catalog| == 0 || height != 0)
  }

  /** Score of entry i against an input of the given size. */
  function EntryScore(catalog: seq<SpecEntry>, width: int, height: int, i: nat): real
    requires CanScore(catalog, height) && i < |catalog|
  {
    Score(width, height, Target(catalog[i], OrientationOf(width, height)))
  }

  /** Entry i has the lowest score among the first n entries, and every entry
      before it scores strictly higher: it is the first minimum. */
  predicate IsFirstMin(catalog: seq<SpecEntry>, width: int, height: int, n: nat, i: nat)
    requires CanScore(catalog, height) && n <= |catalog|
  {
    && i < n
    && (forall j :: 0 <= j < n ==> EntryScore(catalog, width, height, i) <= EntryScore(catalog, width, height, j))
    && (forall j :: 0 <= j < i ==> EntryScore(catalog, width, height, i) < EntryScore(catalog, width, height, j))
  }

  /** The index the scan holds after visiting the first n entries: the first
      is always taken (every score is below infinity), a later one only when
      it scores strictly lower. */
  function BestIndex(catalog: seq<SpecEntry>, width: int, height: int, n: nat): (best: Option<nat>)
    requires CanScore(catalog, height) && n <= |catalog|
    ensures best.None? <==> n == 0
    ensures best.Some? ==> IsFirstMin(catalog, width, height, n, best.value)
  {
    if n == 0 then None
    else match BestIndex(catalog, width, height, n - 1)
      case None => Some(n - 1)
      case Some(b) =>
        if EntryScore(catalog, width, height, n - 1) < EntryScore(catalog, width, height, b)
        then Some(n - 1) else Some(b)
  }

  /** The record the matcher returns for its best entry. */
  datatype Match = Match(specKey: string, name: string, dimensions: Dims, orientation: Orientation)

  function MatchOf(e: SpecEntry, o: Orientation): Match {
    Match(e.key, e.name, Target(e, o), o)
  }

  /** The closest catalog entry to an input of the given size; None for an
      empty catalog. */
  function FindClosestSpec(catalog: seq<SpecEntry>, width: int, height: int): (r: Option<Match>)
    requires CanScore(catalog, height)
    ensures r.None? <==> |catalog| == 0
    ensures r.Some? ==>
      exists i: nat :: IsFirstMin(catalog, width, height, |catalog|, i)
        && r.value == MatchOf(catalog[i], OrientationOf(width, height))
    ensures r.Some? ==>
      && r.value.dimensions.Positive()
      && (forall j :: 0 <= j < |catalog| ==>
            Score(width, height, r.value.dimensions) <= EntryScore(catalog, width, height, j))
  {
    match BestIndex(catalog, width, height, |catalog|)
    case None => None
    case Some(i) => Some(MatchOf(catalog[i], OrientationOf(width, height)))
  }

  /** The matcher loop as written: a running best record and a running best
      score that starts at infinity (here None) and is replaced only on a
      strictly lower score. */
  method FindClosestSpecLoop(catalog: seq<SpecEntry>, width: int, height: int) returns (bestMatch: Option<Match>)
    requires CanScore(catalog, height)
    ensures bestMatch.None? <==> |catalog| == 0
    ensures bestMatch == FindClosestSpec(catalog, width, height)
  {
    var orientation := OrientationOf(width, height);
    bestMatch := None;
    var bestScore: Option<real> := None;
    ghost var bestIndex: Option<nat> := None;
    for k := 0 to |catalog|
      invariant bestIndex == BestIndex(catalog, width, height, k)
      invariant bestIndex.None? ==> bestMatch.None? && bestScore.None?
      invariant bestIndex.Some? ==>
        bestIndex.value < |catalog|
        && bestMatch == Some(MatchOf(catalog[bestIndex.value], orientation))
        && bestScore == Some(EntryScore(catalog, width, height, bestIndex.value))
    {
      var target := Target(catalog[k], orientation);
      var score := Score(width, height, target);
      if bestScore.None? || score < bestScore.value {
        bestScore := Some(score);
        bestMatch := Some(Match(catalog[k].key, catalog[k].name, target, orientation));
        bestIndex := Some(k);
      }
    }
  }

  /** The matcher over the static catalog. */
  function FindClosest(width: int, height: int): (r: Option<Match>)
    requires height != 0
    ensures r.Some?
  {
    FindClosestSpec(Catalog(), width, height)
  }

  // ---------------------------------------------------------------------------
  // The score is zero exactly on an exact size match

  lemma ProductCancel(a: int, b: int, c: int)
    requires c > 0 && a * c == b * c
    ensures a == b
  {
  }

  lemma SquareInjective(a: int, b: int)
    requires a > 0 && b > 0 && a * a == b * b
    ensures a == b
  {
  }

  /** Equal aspect ratio and equal area force equal positive dimensions. */
  lemma RatioAndAreaDetermineDims(w: int, h: int, tw: int, th: int)
    requires w > 0 && h > 0 && tw > 0 && th > 0
    requires w * th == tw * h && w * h == tw * th
    ensures w == tw && h == th
  {
    calc {
      (w * w) * (h * th);
      (w * th) * (w * h);
      (tw * h) * (tw * th);
      (tw * tw) * (h * th);
    }
    assert h * th > 0;
    ProductCancel(w * w, tw * tw, h * th);
    SquareInjective(w, tw);
    assert tw * h == tw * th;
    assert h * tw == th * tw;
    ProductCancel(h, th, tw);
  }

  lemma EqualRatios(w: int, h: int, tw: int, th: int)
    requires h > 0 && th > 0
    requires w as real / h as real == tw as real / th as real
    ensures w * th == tw * h
  {
    var hr, thr := h as real, th as real;
    calc {
      (w * th) as real;
      w as real * thr;
      (w as real / hr) * hr * thr;
      (tw as real / thr) * hr * thr;
      tw as real * hr;
      (tw * h) as real;
    }
  }

  /** A score of zero means the input has exactly the target's dimensions,
      and conversely. */
  lemma ScoreZeroIff(width: int, height: int, target: Dims)
    requires width > 0 && height > 0 && target.Positive()
    ensures Score(width, height, target) == 0.0 <==> Dims(width, height) == target
  {
    var area := target.width * target.height;
    assert area > 0;
    var aspectDiff := AbsReal(width as real / height as real - target.width as real / target.height as real);
    var sizeDiff := AbsInt(width * height - area) as real / area as real;
    assert sizeDiff >= 0.0;
    if Score(width, height, target) == 0.0 {
      assert aspectDiff == 0.0 && sizeDiff == 0.0;
      assert AbsInt(width * height - area) == 0;
      EqualRatios(width, height, target.width, target.height);
      RatioAndAreaDetermineDims(width, height, target.width, target.height);
    }
  }

  // ---------------------------------------------------------------------------
  // Tie-breaking and exact matches

  /** There is only one first minimum, so the scan's answer is determined by
      the scores alone. */
  lemma FirstMinUnique(catalog: seq<SpecEntry>, width: int, height: int, n: nat, i: nat, j: nat)
    requires CanScore(catalog, height) && n <= |catalog|
    requires IsFirstMin(catalog, width, height, n, i) && IsFirstMin(catalog, width, height, n, j)
    ensures i == j
  {
    var si, sj := EntryScore(catalog, width, height, i), EntryScore(catalog, width, height, j);
    assert si <= sj && sj <= si;
    assert i < j ==> sj < si;
    assert j < i ==> si < sj;
  }

  /** When entries i < j offer the same pair for the input's orientation, the
      later one is never returned. */
  lemma LaterDuplicateNeverChosen(catalog: seq<SpecEntry>, width: int, height: int, i: nat, j: nat)
    requires CanScore(catalog, height) && KeysDistinct(catalog)
    requires i < j < |catalog|
    requires Target(catalog[i], OrientationOf(width, height)) == Target(catalog[j], OrientationOf(width, height))
    ensures FindClosestSpec(catalog, width, height).value.specKey != catalog[j].key
  {
    var r := FindClosestSpec(catalog, width, height);
    var k := BestIndex(catalog, width, height, |catalog|).value;
    assert EntryScore(catalog, width, height, i) == EntryScore(catalog, width, height, j);
    assert k != j;
  }

  /** An input that has exactly the pair of some entry is matched to the first
      entry with that pair, with a score of zero. */
  lemma ExactMatchWins(catalog: seq<SpecEntry>, width: int, height: int, i: nat)
    requires width > 0 && height > 0 && CanScore(catalog, height)
    requires i < |catalog| && Target(catalog[i], OrientationOf(width, height)) == Dims(width, height)
    requires forall j :: 0 <= j < i ==> Target(catalog[j], OrientationOf(width, height)) != Dims(width, height)
    ensures FindClosestSpec(catalog, width, height) == Some(MatchOf(catalog[i], OrientationOf(width, height)))
  {
    var o := OrientationOf(width, height);
    var k := BestIndex(catalog, width, height, |catalog|).value;
    ScoreZeroIff(width, height, Target(catalog[i], o));
    assert EntryScore(catalog, width, height, i) == 0.0;
    assert EntryScore(catalog, width, height, k) == 0.0;
    ScoreZeroIff(width, height, Target(catalog[k], o));
    assert Target(catalog[k], o) == Dims(width, height);
    assert k == i;
  }

  /** On a catalog whose portrait pairs are tall and landscape pairs wide, the
      match carries the input's orientation and a pair of that same shape. */
  lemma MatchOrientationConsistent(catalog: seq<SpecEntry>, width: int, height: int)
    requires CanScore(catalog, height) && WellShaped(catalog) && |catalog| > 0
    ensures FindClosestSpec(catalog, width, height).value.orientation.Tag() == (if height > width then "portrait" else "landscape")
    ensures var d := FindClosestSpec(catalog, width, height).value.dimensions;
      d.height > d.width <==> height > width
  {
    var r := FindClosestSpec(catalog, width, height);
    var k := BestIndex(catalog, width, height, |catalog|).value;
    assert catalog[k].portrait.width < catalog[k].portrait.height;
    assert catalog[k].landscape.width > catalog[k].landscape.height;
  }

  // ---------------------------------------------------------------------------
  // Facts about the static catalog

  /** An exact 1290x2796 portrait input goes to the first of the two entries
      with that pair. */
  lemma ExactPortraitPicksFirstEntry()
    ensures FindClosest(1290, 2796) == Some(Match("iphone_16_pro_max", "iPhone 16 Pro Max", Dims(1290, 2796), Portrait))
  {
    ExactMatchWins(Catalog(), 1290, 2796, 0);
  }

  /** Scores of a 3000x2000 input against the five landscape pairs of the
      catalog: the 2868x1320 pair is the only one below 1.64. */
  lemma LandscapeScores3000x2000()
    ensures Score(3000, 2000, Dims(2868, 1320)) < 1.64
    ensures Score(3000, 2000, Dims(2796, 1290)) > 1.66
    ensures Score(3000, 2000, Dims(2778, 1284)) > 1.66
    ensures Score(3000, 2000, Dims(2688, 1242)) > 1.66
    ensures Score(3000, 2000, Dims(1792, 828)) > 1.66
  {
  }

  /** A 3000x2000 landscape input is matched to the 2868x1320 landscape pair
      of the second entry, the first of the three entries with that pair. */
  lemma LandscapeExample()
    ensures FindClosest(3000, 2000) == Some(Match("iphone_16_plus", "iPhone 16 Plus", Dims(2868, 1320), Landscape))
  {
    var c := Catalog();
    LandscapeScores3000x2000();
    var best := EntryScore(c, 3000, 2000, 1);
    assert best < 1.64;
    forall j | 0 <= j < |c|
      ensures best <= EntryScore(c, 3000, 2000, j)
    {
      assert c[j].landscape in {Dims(2868, 1320), Dims(2796, 1290), Dims(2778, 1284), Dims(2688, 1242), Dims(1792, 828)};
    }
    assert EntryScore(c, 3000, 2000, 0) > 1.66;
    assert IsFirstMin(c, 3000, 2000, |c|, 1);
    FirstMinUnique(c, 3000, 2000, |c|, BestIndex(c, 3000, 2000, |c|).value, 1);
  }

  /** Entries that repeat the pairs of an earlier entry are never reported:
      only five of the twelve keys can ever be returned. */
  lemma ShadowedEntriesNeverChosen(width: int, height: int)
    requires height != 0
    ensures FindClosest(width, height).value.specKey in
      {"iphone_16_pro_max", "iphone_16_plus", "iphone_14_plus", "iphone_13_pro_max", "iphone_11"}
  {
    var c := Catalog();
    CatalogKeysDistinct();
    var r := FindClosest(width, height);
    var k := BestIndex(c, width, height, |c|).value;
    LaterDuplicateNeverChosen(c, width, height, 0, 4);
    LaterDuplicateNeverChosen(c, width, height, 1, 2);
    LaterDuplicateNeverChosen(c, width, height, 1, 3);
    LaterDuplicateNeverChosen(c, width, height, 6, 7);
    LaterDuplicateNeverChosen(c, width, height, 6, 8);
    LaterDuplicateNeverChosen(c, width, height, 6, 10);
    LaterDuplicateNeverChosen(c, width, height, 9, 11);
    assert k in {0, 1, 5, 6, 9};
  }

  /** The static catalog always yields a match whose orientation and shape
      agree with the input. */
  lemma CatalogMatchOrientation(width: int, height: int)
    requires height != 0
    ensures FindClosest(width, height).value.orientation == OrientationOf(width, height)
    ensures var d := FindClosest(width, height).value.dimensions;
      d.height > d.width <==> height > width
  {
    MatchOrientationConsistent(Catalog(), width, height);
  }

  // ---------------------------------------------------------------------------
  // Result assembly

  /** The record process_screenshot returns: the success variant with the
      sizes, device name, orientation and output path, or the failure variant
      with the text of whatever was raised. */
  datatype ProcessingResult =
    | Processed(originalDimensions: Dims, targetDimensions: Dims, deviceName: string,
                orientation: Orientation, outputPath: string)
    | Failed(error: string)

  const NoSpecError := "Could not find suitable Apple specification"

  /** The text of Python's exception for a division by a zero input height. */
  const DivisionByZeroError := "division by zero"

  /** The resize step wraps whatever its image library raises. */
  function ResizeError(cause: string): string {
    "Error resizing image: " + cause
  }

  /** process_screenshot with its image I/O passed in:
      - decoded: the size the decoder reports, or the text of its exception;
      - resize: for a target size, None when resizing succeeds, otherwise the
        text of the library's exception;
      - saveError: None when writing the PNG succeeds, otherwise its text. */
  function ProcessScreenshot(catalog: seq<SpecEntry>, decoded: Result<Dims>, resize: Dims -> Option<string>,
                             saveError: Option<string>, outputPath: string): (r: ProcessingResult)
    requires AllPositive(catalog)
    ensures decoded.Failure? ==> r == Failed(decoded.error)
    ensures decoded.Success? && |catalog| == 0 ==> r == Failed(NoSpecError)
    ensures decoded.Success? && |catalog| > 0 && decoded.value.height == 0 ==> r == Failed(DivisionByZeroError)
    ensures decoded.Success? && decoded.value.height != 0 && |catalog| > 0 ==>
      var m := FindClosestSpec(catalog, decoded.value.width, decoded.value.height).value;
      && (resize(m.dimensions).Some? ==> r == Failed(ResizeError(resize(m.dimensions).value)))
      && (resize(m.dimensions).None? && saveError.Some? ==> r == Failed(saveError.value))
      && (resize(m.dimensions).None? && saveError.None? ==> r.Processed?)
    ensures r.Processed? ==>
      && decoded.Success?
      && r.originalDimensions == decoded.value
      && r.outputPath == outputPath
      && decoded.value.height != 0
      && var m := FindClosestSpec(catalog, decoded.value.width, decoded.value.height);
      && m.Some?
      && r.targetDimensions == m.value.dimensions
      && r.deviceName == m.value.name
      && r.orientation == m.value.orientation
  {
    match decoded
    case Failure(e) => Failed(e)
    case Success(size) =>
      if |catalog| > 0 && size.height == 0 then Failed(DivisionByZeroError)
      else
        match FindClosestSpec(catalog, size.width, size.height)
        case None => Failed(NoSpecError)
        case Some(m) =>
          match resize(m.dimensions)
          case Some(cause) => Failed(ResizeError(cause))
          case None =>
            match saveError
            case Some(e) => Failed(e)
            case None => Processed(size, m.dimensions, m.name, m.orientation, outputPath)
  }

  /** End to end on the static catalog: a successful run reports a target of
      the input's orientation, taken from an entry the matcher ranks first. */
  lemma ProcessedOrientationConsistent(decoded: Result<Dims>, resize: Dims -> Option<string>,
                                       saveError: Option<string>, outputPath: string)
    ensures var r := ProcessScreenshot(Catalog(), decoded, resize, saveError, outputPath);
      r.Processed? ==>
        && r.orientation == OrientationOf(r.originalDimensions.width, r.originalDimensions.height)
        && (r.targetDimensions.height > r.targetDimensions.width
            <==> r.originalDimensions.height > r.originalDimensions.width)
  {
    if decoded.Success? && decoded.value.height != 0 {
      CatalogMatchOrientation(decoded.value.width, decoded.value.height);
    }
  }
}
