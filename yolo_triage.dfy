/**
 * The detector triage of one frame (`process_frame`): drop short boxes, keep
 * the rest in detector order with their running maximum confidence, split them
 * into a high and a low confidence tier, and decide "person", "ambiguous" or
 * nothing. The two writes (annotated image, JSON record) are returned as an
 * output plan; the image decoding and the detector itself are inputs.
 */
module YoloTriage {
  import opened Wrappers
  import opened Sequences
  import Names

  /** CONF_HIGH, CONF_LOW and MIN_HEIGHT. */
  datatype Config = Config(confHigh: real, confLow: real, minHeight: int)

  const DefaultConfig := Config(0.6, 0.4, 80)

  /** One box as the detector reports it: `box.xyxy[0]` and `box.conf[0]`. */
  datatype RawBox = RawBox(x1: real, y1: real, x2: real, y2: real, conf: real)

  datatype BBox = BBox(x1: int, y1: int, x2: int, y2: int)

  /** `{"bbox": [x1, y1, x2, y2], "confidence": conf}` */
  datatype Detection = Detection(bbox: BBox, confidence: real)

  /** Python's `int()` on a float: truncation toward zero. */
  function Truncate(x: real): (n: int)
    ensures 0.0 <= x ==> n as real <= x < n as real + 1.0
    ensures x < 0.0 ==> n as real - 1.0 < x <= n as real
  {
    if x >= 0.0 then x.Floor else -((-x).Floor)
  }

  function ToDetection(b: RawBox): Detection
  {
    Detection(BBox(Truncate(b.x1), Truncate(b.y1), Truncate(b.x2), Truncate(b.y2)), b.conf)
  }

  function Height(d: Detection): int
  {
    d.bbox.y2 - d.bbox.y1
  }

  /** The three conditions the triage filters detections by. */
  datatype Criterion =
    | Tall(minHeight: int)                  // survives the size filter
    | High(confHigh: real)                  // conf >= CONF_HIGH
    | Low(confLow: real, confHigh: real)    // CONF_LOW <= conf < CONF_HIGH

  predicate Meets(c: Criterion, d: Detection)
  {
    match c
    case Tall(h) => Height(d) >= h
    case High(hi) => d.confidence >= hi
    case Low(lo, hi) => lo <= d.confidence < hi
  }

  /** `[d for d in s if <criterion>]` */
  function Select(c: Criterion, s: seq<Detection>): (r: seq<Detection>)
    ensures |r| <= |s|
  {
    if |s| == 0 then [] else (if Meets(c, s[0]) then [s[0]] else []) + Select(c, s[1..])
  }

  function HighTier(cfg: Config, detections: seq<Detection>): seq<Detection>
  {
    Select(High(cfg.confHigh), detections)
  }

  function LowTier(cfg: Config, detections: seq<Detection>): seq<Detection>
  {
    Select(Low(cfg.confLow, cfg.confHigh), detections)
  }

  function Converted(boxes: seq<RawBox>): (ds: seq<Detection>)
    ensures |ds| == |boxes|
  {
    seq(|boxes|, i requires 0 <= i < |boxes| => ToDetection(boxes[i]))
  }

  /** Every box of every result, in the order the nested loop visits them. */
  function AllBoxes(results: seq<seq<RawBox>>): seq<Detection>
  {
    if |results| == 0 then [] else Converted(results[0]) + AllBoxes(results[1..])
  }

  /** The boxes that pass the size filter: what `frame_data["detections"]` collects. */
  function Survivors(cfg: Config, results: seq<seq<RawBox>>): (ds: seq<Detection>)
    ensures |ds| <= |AllBoxes(results)|
  {
    Select(Tall(cfg.minHeight), AllBoxes(results))
  }

  /** The running maximum: start from `m`, replace it by a confidence strictly larger. */
  function MaxFrom(m: real, s: seq<Detection>): (r: real)
    ensures m <= r
    decreases |s|
  {
    if |s| == 0 then m else MaxFrom(if s[0].confidence > m then s[0].confidence else m, s[1..])
  }

  datatype Decision = Person | Ambiguous

  /** Box colour: green (0, 255, 0) for persons, yellow (0, 255, 255) for ambiguous frames. */
  datatype Colour = Green | Yellow

  /** The JSON record `frame_data`. */
  datatype FrameRecord = FrameRecord(
    frame: string,
    detections: seq<Detection>,
    humanCount: nat,
    decision: Decision,
    maxConfidence: real)

  /** What a decided frame writes: the annotated image and the metadata record. */
  datatype OutputPlan = OutputPlan(
    imagePath: string,
    drawn: seq<Detection>,
    colour: Colour,
    metadataPath: string,
    record: FrameRecord)

  /** `f"{OUTPUT_DIR}/metadata/{os.path.splitext(frame_name)[0]}.json"` */
  function MetadataPath(outputDir: string, frameName: string): (path: string)
    ensures outputDir + "/metadata/" <= path
    ensures Names.EndsWith(path, Names.Stem(frameName) + ".json")
  {
    var name := Names.Stem(frameName) + ".json";
    var path := outputDir + "/metadata/" + name;
    assert path[|path| - |name|..] == name;
    path
  }

  /** The decision made from the collected detections (the tier split and the case split). */
  function Classify(cfg: Config, outputDir: string, frameName: string, detections: seq<Detection>, maxConfidence: real): Option<OutputPlan>
  {
    var high := HighTier(cfg, detections);
    var low := LowTier(cfg, detections);
    if |high| > 0 then
      Some(OutputPlan(outputDir + "/detected_persons/" + frameName, high, Green, MetadataPath(outputDir, frameName),
                      FrameRecord(frameName, detections, |high|, Person, maxConfidence)))
    else if |low| > 0 then
      Some(OutputPlan(outputDir + "/ambiguous/" + frameName, low, Yellow, MetadataPath(outputDir, frameName),
                      FrameRecord(frameName, detections, |high|, Ambiguous, maxConfidence)))
    else
      None
  }

  /**
   * What `process_frame(framePath)` returns and writes. `image` is None when
   * the image cannot be read, and otherwise holds the detector's results on
   * it, one list of boxes per result.
   */
  function Triage(cfg: Config, outputDir: string, framePath: string, image: Option<seq<seq<RawBox>>>): (plan: Option<OutputPlan>)
    ensures image.None? ==> plan.None?
    ensures plan.Some? ==>
      && plan.value.record.frame == Names.Basename(framePath)
      && plan.value.record.detections == Survivors(cfg, image.value)
      && plan.value.record.maxConfidence == MaxFrom(0.0, Survivors(cfg, image.value))
  {
    match image
    case None => None
    case Some(results) =>
      var detections := Survivors(cfg, results);
      ClassifySpec(cfg, outputDir, Names.Basename(framePath), detections, MaxFrom(0.0, detections));
      Classify(cfg, outputDir, Names.Basename(framePath), detections, MaxFrom(0.0, detections))
  }

  /** `process_frame`, with its nested loop over the detector's results. */
  method ProcessFrame(cfg: Config, outputDir: string, framePath: string, image: Option<seq<seq<RawBox>>>)
    returns (plan: Option<OutputPlan>)
    ensures plan == Triage(cfg, outputDir, framePath, image)
  {
    if image.None? {
      return None;
    }
    var results := image.value;
    var frameName := Names.Basename(framePath);
    var detections: seq<Detection> := [];
    var maxConfidence := 0.0;
    var i := 0;
    while i < |results|
      invariant 0 <= i <= |results|
      invariant detections == Select(Tall(cfg.minHeight), AllBoxes(results[..i]))
      invariant maxConfidence == MaxFrom(0.0, detections)
    {
      var boxes := results[i];
      var j := 0;
      assert Converted(boxes[..0]) == [];
      assert AllBoxes(results[..i]) + [] == AllBoxes(results[..i]);
      while j < |boxes|
        invariant 0 <= j <= |boxes|
        invariant detections == Select(Tall(cfg.minHeight), AllBoxes(results[..i]) + Converted(boxes[..j]))
        invariant maxConfidence == MaxFrom(0.0, detections)
      {
        var detection := ToDetection(boxes[j]);
        TallStep(cfg, AllBoxes(results[..i]), boxes, j);
        if Height(detection) >= cfg.minHeight {
          MaxFromAppend(0.0, detections, detection);
          detections := detections + [detection];
          if detection.confidence > maxConfidence {
            maxConfidence := detection.confidence;
          }
        }
        j := j + 1;
      }
      assert boxes[..j] == boxes;
      RowStep(results, i);
      i := i + 1;
    }
    assert results[..i] == results;
    plan := Classify(cfg, outputDir, frameName, detections, maxConfidence);
  }

  /** One box of the inner loop: it joins the detections iff it is tall enough. */
  lemma TallStep(cfg: Config, prefix: seq<Detection>, boxes: seq<RawBox>, j: nat)
    requires j < |boxes|
    ensures var d := ToDetection(boxes[j]);
      Select(Tall(cfg.minHeight), prefix + Converted(boxes[..j + 1]))
      == Select(Tall(cfg.minHeight), prefix + Converted(boxes[..j])) + (if Height(d) >= cfg.minHeight then [d] else [])
  {
    var d := ToDetection(boxes[j]);
    assert Converted(boxes[..j + 1]) == Converted(boxes[..j]) + [d];
    assert prefix + Converted(boxes[..j + 1]) == (prefix + Converted(boxes[..j])) + [d];
    SelectAppend(Tall(cfg.minHeight), prefix + Converted(boxes[..j]), [d]);
    assert [d][1..] == [];
  }

  /** One row of the outer loop: its boxes follow those of the rows before. */
  lemma RowStep(results: seq<seq<RawBox>>, i: nat)
    requires i < |results|
    ensures AllBoxes(results[..i + 1]) == AllBoxes(results[..i]) + Converted(results[i])
  {
    AllBoxesAppend(results[..i], [results[i]]);
    assert AllBoxes([results[i]]) == Converted(results[i]) by { assert [results[i]][1..] == []; }
    assert results[..i + 1] == results[..i] + [results[i]];
  }

  // ---------------------------------------------------------------------------
  // Filtering
  // ---------------------------------------------------------------------------

  lemma {:induction false} SelectAppend(c: Criterion, a: seq<Detection>, b: seq<Detection>)
    ensures Select(c, a + b) == Select(c, a) + Select(c, b)
  {
    if |a| > 0 {
      SelectAppend(c, a[1..], b);
      assert (a + b)[0] == a[0] && (a + b)[1..] == a[1..] + b;
    } else {
      assert a + b == b;
    }
  }

  lemma {:induction false} AllBoxesAppend(a: seq<seq<RawBox>>, b: seq<seq<RawBox>>)
    ensures AllBoxes(a + b) == AllBoxes(a) + AllBoxes(b)
  {
    if |a| > 0 {
      AllBoxesAppend(a[1..], b);
      assert (a + b)[0] == a[0] && (a + b)[1..] == a[1..] + b;
    } else {
      assert a + b == b;
    }
  }

  /**
   * A filter keeps exactly the detections meeting its criterion, each as often
   * as it occurs (no deduplication), in their original order.
   */
  lemma SelectSpec(c: Criterion, s: seq<Detection>)
    ensures forall d :: multiset(Select(c, s))[d] == if Meets(c, d) then multiset(s)[d] else 0
    ensures forall d :: d in Select(c, s) <==> d in s && Meets(c, d)
    ensures IsSubsequence(Select(c, s), s)
  {
    SelectCount(c, s);
    SelectSubsequence(c, s);
    var r := Select(c, s);
    forall d ensures d in r <==> d in s && Meets(c, d) {
      assert d in r <==> multiset(r)[d] > 0;
      assert d in s <==> multiset(s)[d] > 0;
    }
  }

  /** The filter keeps each detection that meets the criterion as often as it occurs, and no other. */
  lemma {:induction false} SelectCount(c: Criterion, s: seq<Detection>)
    ensures forall d :: multiset(Select(c, s))[d] == if Meets(c, d) then multiset(s)[d] else 0
  {
    if |s| > 0 {
      SelectCount(c, s[1..]);
      assert s == [s[0]] + s[1..];
      assert multiset(s) == multiset{s[0]} + multiset(s[1..]);
      var keep := if Meets(c, s[0]) then [s[0]] else [];
      assert Select(c, s) == keep + Select(c, s[1..]);
      assert multiset(Select(c, s)) == multiset(keep) + multiset(Select(c, s[1..]));
    }
  }

  /** The filter keeps detector order. */
  lemma {:induction false} SelectSubsequence(c: Criterion, s: seq<Detection>)
    ensures IsSubsequence(Select(c, s), s)
  {
    if |s| > 0 {
      SelectSubsequence(c, s[1..]);
      var r, rest := Select(c, s), Select(c, s[1..]);
      if Meets(c, s[0]) {
        assert r == [s[0]] + rest;
        assert r[0] == s[0] && r[1..] == rest;
      } else {
        assert r == rest;
      }
    }
  }

  /**
   * `detections` holds exactly the boxes whose height reaches MIN_HEIGHT, with
   * their multiplicity and in detector order.
   */
  lemma DetectionsAreTallBoxes(cfg: Config, results: seq<seq<RawBox>>)
    ensures forall d :: multiset(Survivors(cfg, results))[d] == if Height(d) >= cfg.minHeight then multiset(AllBoxes(results))[d] else 0
    ensures IsSubsequence(Survivors(cfg, results), AllBoxes(results))
  {
    SelectSpec(Tall(cfg.minHeight), AllBoxes(results));
  }

  /**
   * The two tiers are disjoint, order-preserving subsequences of `detections`;
   * a detection lands in the high tier iff conf >= CONF_HIGH and in the low
   * tier iff CONF_LOW <= conf < CONF_HIGH.
   */
  lemma TiersPartition(cfg: Config, detections: seq<Detection>)
    ensures forall d :: d in HighTier(cfg, detections) <==> d in detections && d.confidence >= cfg.confHigh
    ensures forall d :: d in LowTier(cfg, detections) <==> d in detections && cfg.confLow <= d.confidence < cfg.confHigh
    ensures forall d :: !(d in HighTier(cfg, detections) && d in LowTier(cfg, detections))
    ensures IsSubsequence(HighTier(cfg, detections), detections)
    ensures IsSubsequence(LowTier(cfg, detections), detections)
  {
    SelectSpec(High(cfg.confHigh), detections);
    SelectSpec(Low(cfg.confLow, cfg.confHigh), detections);
  }

  // ---------------------------------------------------------------------------
  // Maximum confidence
  // ---------------------------------------------------------------------------

  lemma {:induction false} MaxFromAppend(m: real, s: seq<Detection>, d: Detection)
    ensures MaxFrom(m, s + [d]) == if d.confidence > MaxFrom(m, s) then d.confidence else MaxFrom(m, s)
    decreases |s|
  {
    if |s| > 0 {
      MaxFromAppend(if s[0].confidence > m then s[0].confidence else m, s[1..], d);
      assert (s + [d])[1..] == s[1..] + [d];
    }
  }

  /**
   * The running maximum never falls below its start, bounds every confidence
   * of `s`, and is either its start or one of those confidences.
   */
  lemma {:induction false} MaxFromSpec(m: real, s: seq<Detection>)
    ensures MaxFrom(m, s) >= m
    ensures forall d :: d in s ==> d.confidence <= MaxFrom(m, s)
    ensures MaxFrom(m, s) == m || exists d :: d in s && d.confidence == MaxFrom(m, s)
    decreases |s|
  {
    if |s| > 0 {
      var m' := if s[0].confidence > m then s[0].confidence else m;
      MaxFromSpec(m', s[1..]);
      assert s == [s[0]] + s[1..];
      if MaxFrom(m, s) != m && MaxFrom(m, s) != m' {
        var d :| d in s[1..] && d.confidence == MaxFrom(m', s[1..]);
        assert d in s;
      }
    }
  }

  /**
   * `max_confidence` is the larger of 0.0 and the largest confidence among the
   * boxes that pass the size filter.
   */
  lemma MaxConfidenceIsMaximum(cfg: Config, results: seq<seq<RawBox>>)
    ensures var ds := Survivors(cfg, results);
      && MaxFrom(0.0, ds) >= 0.0
      && (forall d :: d in ds ==> d.confidence <= MaxFrom(0.0, ds))
      && (MaxFrom(0.0, ds) == 0.0 || exists d :: d in ds && d.confidence == MaxFrom(0.0, ds))
  {
    MaxFromSpec(0.0, Survivors(cfg, results));
  }

  // ---------------------------------------------------------------------------
  // The decision
  // ---------------------------------------------------------------------------

  /** A box is "tall and confident" when it passes the size filter and reaches the tier's bound. */
  predicate IsHighBox(cfg: Config, d: Detection)
  {
    Height(d) >= cfg.minHeight && d.confidence >= cfg.confHigh
  }

  predicate IsLowBox(cfg: Config, d: Detection)
  {
    Height(d) >= cfg.minHeight && cfg.confLow <= d.confidence < cfg.confHigh
  }

  lemma SelectNonEmpty(c: Criterion, s: seq<Detection>)
    ensures |Select(c, s)| > 0 <==> exists d :: d in s && Meets(c, d)
  {
    SelectSpec(c, s);
    if |Select(c, s)| > 0 {
      assert Select(c, s)[0] in Select(c, s);
    }
  }

  /** Whether the tiers are empty, stated on the detector's boxes. */
  lemma TiersOfBoxes(cfg: Config, results: seq<seq<RawBox>>)
    ensures var ds := Survivors(cfg, results);
      && (|HighTier(cfg, ds)| > 0 <==> exists d :: d in AllBoxes(results) && IsHighBox(cfg, d))
      && (|LowTier(cfg, ds)| > 0 <==> exists d :: d in AllBoxes(results) && IsLowBox(cfg, d))
  {
    var ds := Survivors(cfg, results);
    SelectSpec(Tall(cfg.minHeight), AllBoxes(results));
    SelectNonEmpty(High(cfg.confHigh), ds);
    SelectNonEmpty(Low(cfg.confLow, cfg.confHigh), ds);
    if d :| d in AllBoxes(results) && IsHighBox(cfg, d) {
      assert d in ds && Meets(High(cfg.confHigh), d);
    }
    if d :| d in AllBoxes(results) && IsLowBox(cfg, d) {
      assert d in ds && Meets(Low(cfg.confLow, cfg.confHigh), d);
    }
  }

  /**
   * The verdict in terms of the detector's boxes: "person" iff some tall box
   * reaches CONF_HIGH, with the count of such boxes (at least one); otherwise
   * "ambiguous" iff some tall box lies in [CONF_LOW, CONF_HIGH), with count 0;
   * otherwise nothing is returned or written. An unreadable image yields nothing.
   */
  lemma DecisionSpec(cfg: Config, outputDir: string, framePath: string, image: Option<seq<seq<RawBox>>>)
    ensures image.None? ==> Triage(cfg, outputDir, framePath, image).None?
    ensures image.Some? ==>
      var boxes := AllBoxes(image.value);
      var plan := Triage(cfg, outputDir, framePath, image);
      && (plan.Some? && plan.value.record.decision == Person <==> exists d :: d in boxes && IsHighBox(cfg, d))
      && (plan.Some? && plan.value.record.decision == Ambiguous <==>
            (forall d :: d in boxes ==> !IsHighBox(cfg, d)) && exists d :: d in boxes && IsLowBox(cfg, d))
      && (plan.None? <==> forall d :: d in boxes ==> !IsHighBox(cfg, d) && !IsLowBox(cfg, d))
      && (plan.Some? && plan.value.record.decision == Person ==>
            plan.value.record.humanCount == |HighTier(cfg, Survivors(cfg, image.value))| >= 1)
      && (plan.Some? && plan.value.record.decision == Ambiguous ==> plan.value.record.humanCount == 0)
  {
    if image.Some? {
      TiersOfBoxes(cfg, image.value);
    }
  }

  /**
   * A decided frame records the frame name, all surviving detections and their
   * maximum confidence; it draws only the deciding tier, green under
   * `detected_persons/` for "person" and yellow under `ambiguous/` otherwise,
   * and writes the record to `metadata/<stem>.json`.
   */
  lemma OutputPlanSpec(cfg: Config, outputDir: string, dir: string, name: string, results: seq<seq<RawBox>>)
    requires '/' !in name
    ensures var plan := Triage(cfg, outputDir, dir + "/" + name, Some(results));
      var ds := Survivors(cfg, results);
      plan.Some? ==>
        && plan.value.record.frame == name
        && plan.value.record.detections == ds
        && plan.value.record.maxConfidence == MaxFrom(0.0, ds)
        && plan.value.metadataPath == outputDir + "/metadata/" + Names.Stem(name) + ".json"
        && |plan.value.drawn| >= 1
        && (plan.value.record.decision == Person ==>
              plan.value.drawn == HighTier(cfg, ds) && plan.value.colour == Green
              && plan.value.imagePath == outputDir + "/detected_persons/" + name)
        && (plan.value.record.decision == Ambiguous ==>
              plan.value.drawn == LowTier(cfg, ds) && plan.value.colour == Yellow
              && plan.value.imagePath == outputDir + "/ambiguous/" + name
              && |HighTier(cfg, ds)| == 0)
  {
    Names.BasenameOfFramePath(dir, name);
  }

  /** A box shorter than MIN_HEIGHT is never recorded, drawn or counted. */
  lemma ShortBoxNeverRecorded(cfg: Config, outputDir: string, framePath: string, results: seq<seq<RawBox>>, d: Detection)
    requires Height(d) < cfg.minHeight
    ensures var plan := Triage(cfg, outputDir, framePath, Some(results));
      plan.Some? ==> d !in plan.value.record.detections && d !in plan.value.drawn
  {
    var ds := Survivors(cfg, results);
    SelectSpec(Tall(cfg.minHeight), AllBoxes(results));
    TiersPartition(cfg, ds);
  }

  lemma SelectSkips(c: Criterion, x: seq<Detection>, d: Detection, y: seq<Detection>)
    requires !Meets(c, d)
    ensures Select(c, x + [d] + y) == Select(c, x + y)
  {
    SelectAppend(c, x + [d], y);
    SelectAppend(c, x, [d]);
    SelectAppend(c, x, y);
    assert Select(c, [d]) == [] by { assert [d][1..] == []; }
  }

  lemma AllBoxesUpdate(results: seq<seq<RawBox>>, k: nat, r: seq<RawBox>)
    requires k < |results|
    ensures AllBoxes(results[k := r]) == AllBoxes(results[..k]) + Converted(r) + AllBoxes(results[k + 1..])
  {
    var u := results[k := r];
    assert u == results[..k] + [r] + results[k + 1..];
    AllBoxesAppend(results[..k] + [r], results[k + 1..]);
    AllBoxesAppend(results[..k], [r]);
    assert AllBoxes([r]) == Converted(r) + AllBoxes([]);
  }

  /** Converting a row with an inserted box converts the box in place. */
  lemma ConvertedInsert(r: seq<RawBox>, j: nat, b: RawBox)
    requires j <= |r|
    ensures Converted(r) == Converted(r[..j]) + Converted(r[j..])
    ensures Converted(r[..j] + [b] + r[j..]) == Converted(r[..j]) + [ToDetection(b)] + Converted(r[j..])
  {
    assert r == r[..j] + r[j..];
  }

  /** A box shorter than MIN_HEIGHT added anywhere leaves the surviving detections as they were. */
  lemma ShortBoxSurvivors(cfg: Config, results: seq<seq<RawBox>>, k: nat, j: nat, b: RawBox)
    requires k < |results| && j <= |results[k]|
    requires Height(ToDetection(b)) < cfg.minHeight
    ensures var r := results[k];
      Survivors(cfg, results[k := r[..j] + [b] + r[j..]]) == Survivors(cfg, results)
  {
    var r := results[k];
    var r' := r[..j] + [b] + r[j..];
    AllBoxesUpdate(results, k, r');
    AllBoxesUpdate(results, k, r);
    assert results[k := r] == results;
    ConvertedInsert(r, j, b);
    var pre, post := AllBoxes(results[..k]), AllBoxes(results[k + 1..]);
    var x, y := pre + Converted(r[..j]), Converted(r[j..]) + post;
    SelectSkips(Tall(cfg.minHeight), x, ToDetection(b), y);
    calc {
      AllBoxes(results[k := r']);
      pre + (Converted(r[..j]) + [ToDetection(b)] + Converted(r[j..])) + post;
      { SeqAssoc(pre, Converted(r[..j]), [ToDetection(b)], Converted(r[j..]), post); }
      x + [ToDetection(b)] + y;
    }
    calc {
      AllBoxes(results);
      pre + (Converted(r[..j]) + Converted(r[j..])) + post;
      x + y;
    }
  }

  /** Regrouping a concatenation around an inserted element. */
  lemma SeqAssoc<T>(a: seq<T>, b: seq<T>, c: seq<T>, d: seq<T>, e: seq<T>)
    ensures a + (b + c + d) + e == (a + b) + c + (d + e)
  {
  }

  /**
   * Adding a box shorter than MIN_HEIGHT anywhere in the detector's output
   * changes nothing: not the detections, the tiers, the count or the maximum.
   */
  lemma ShortBoxIrrelevant(cfg: Config, outputDir: string, framePath: string,
                           results: seq<seq<RawBox>>, k: nat, j: nat, b: RawBox)
    requires k < |results| && j <= |results[k]|
    requires Height(ToDetection(b)) < cfg.minHeight
    ensures var r := results[k];
      Triage(cfg, outputDir, framePath, Some(results[k := r[..j] + [b] + r[j..]]))
      == Triage(cfg, outputDir, framePath, Some(results))
  {
    ShortBoxSurvivors(cfg, results, k, j, b);
  }

  /**
   * With the default thresholds, boxes of confidence 0.75 (tall), 0.45 (tall)
   * and 0.72 (40 pixels high) make a "person" frame counting one person.
   */
  lemma DefaultThresholdsExample()
    ensures var results := [[RawBox(10.0, 10.0, 60.0, 200.0, 0.75),
                             RawBox(100.0, 20.0, 150.0, 140.0, 0.45),
                             RawBox(200.0, 50.0, 220.0, 90.0, 0.72)]];
      var plan := Triage(DefaultConfig, "out", "frames/f1.jpg", Some(results));
      plan.Some? && plan.value.record.decision == Person && plan.value.record.humanCount == 1
      && plan.value.record.maxConfidence == 0.75 && |plan.value.record.detections| == 2
  {
    var b0 := RawBox(10.0, 10.0, 60.0, 200.0, 0.75);
    var b1 := RawBox(100.0, 20.0, 150.0, 140.0, 0.45);
    var b2 := RawBox(200.0, 50.0, 220.0, 90.0, 0.72);
    var results := [[b0, b1, b2]];
    var d0, d1, d2 := ToDetection(b0), ToDetection(b1), ToDetection(b2);
    assert Height(d0) == 190 && Height(d1) == 120 && Height(d2) == 40;
    assert AllBoxes(results) == [d0, d1, d2] by {
      assert AllBoxes(results[1..]) == [];
    }
    var c := Tall(80);
    assert Select(c, [d2]) == [] by { assert [d2][1..] == []; }
    assert Select(c, [d1, d2]) == [d1] by { assert [d1, d2][1..] == [d2]; }
    assert Select(c, [d0, d1, d2]) == [d0, d1] by { assert [d0, d1, d2][1..] == [d1, d2]; }
    var ds := [d0, d1];
    assert HighTier(DefaultConfig, ds) == [d0] by {
      assert ds[1..] == [d1];
      assert Select(High(0.6), [d1]) == [] by { assert [d1][1..] == []; }
    }
    assert MaxFrom(0.0, ds) == 0.75 by {
      assert ds[1..] == [d1];
      assert MaxFrom(0.75, [d1]) == MaxFrom(0.75, []) by { assert [d1][1..] == []; }
    }
  }

  /**
   * The detector is called with `conf=CONF_LOW`, so it reports no box below
   * CONF_LOW. On such results every surviving detection lies in exactly one
   * tier, and a frame is decided iff some box survives the size filter.
   */
  lemma FlooredResultsDecide(cfg: Config, outputDir: string, framePath: string, results: seq<seq<RawBox>>)
    requires forall d :: d in AllBoxes(results) ==> d.confidence >= cfg.confLow
    ensures var ds := Survivors(cfg, results);
      forall d :: d in ds ==> (d in HighTier(cfg, ds) <==> d !in LowTier(cfg, ds))
    ensures Triage(cfg, outputDir, framePath, Some(results)).Some? <==> |Survivors(cfg, results)| > 0
  {
    var ds := Survivors(cfg, results);
    SelectSpec(Tall(cfg.minHeight), AllBoxes(results));
    TiersPartition(cfg, ds);
    if |ds| > 0 {
      assert ds[0] in ds;
      assert ds[0] in HighTier(cfg, ds) || ds[0] in LowTier(cfg, ds);
    }
  }

  /**
   * A frame is decided iff one of the tiers is non-empty, and "person" iff the
   * high tier is; the record carries the frame name, all detections and the
   * maximum confidence, and at least one box is drawn.
   */
  lemma ClassifySpec(cfg: Config, outputDir: string, frameName: string, detections: seq<Detection>, maxConfidence: real)
    ensures var plan := Classify(cfg, outputDir, frameName, detections, maxConfidence);
      && (plan.Some? <==> |HighTier(cfg, detections)| > 0 || |LowTier(cfg, detections)| > 0)
      && (plan.Some? ==>
            && plan.value.record.frame == frameName
            && plan.value.record.detections == detections
            && plan.value.record.maxConfidence == maxConfidence
            && |plan.value.drawn| >= 1
            && (plan.value.record.decision == Person <==> |HighTier(cfg, detections)| > 0))
  {
  }
}
