# Frame triage, response validation and manual selection, in Dafny

This project models the decision logic of a pedestrian-detection toolkit that
works on video frames:

- **Detector triage** (`process_frame` in `src/run_yolo_detection.py`). A
  single-class person detector returns boxes. Boxes shorter than MIN_HEIGHT
  (80 px) are dropped. The rest are recorded in detector order, with their
  running maximum confidence. They are then split into a high tier
  (confidence >= CONF_HIGH, 0.6) and a low tier (CONF_LOW, 0.4, <= confidence
  < CONF_HIGH). The frame is decided as "person" (green boxes under
  `detected_persons/`), "ambiguous" (yellow boxes under `ambiguous/`) or
  nothing. A decided frame also gets a JSON record under
  `metadata/<stem>.json`.
- **Vision-model validation and retry** (`analyze_image` and the frame loop
  in `src/LLAVAselectiontheone.py`). A parsed backend reply becomes a record
  whose `human_count` is an integer and whose `confidence` is clamped to
  [0, 1]. Every failure becomes a fixed "degraded" record instead of an
  exception. Each frame gets up to three attempts to write its record to
  `<stem>.json`. A terminal record "Failed after 3 attempts: ..." is written
  when all three writes fail. The loop runs over the sorted listing and
  skips names whose lower-cased form does not end in `.png`, `.jpg` or
  `.jpeg`. As the file is indented, a stray fragment at line 138 ends the
  script with NameError after the first image name. Both that behaviour and
  the loop without the fragment are modelled (see "## Findings").
- **Manual selection windows** (`src/selection.py` and
  `src/image_selection.py`). An index walks a sorted list of image names.
  "Next" and "Previous" move it within the list. "Select" appends the current
  name once and advances.

Modules:

| file | module | what it holds |
|---|---|---|
| `wrappers.dfy` | `Wrappers` | `Option` and `Result` |
| `sequences.dfy` | `Sequences` | subsequence, duplicate-freedom and counting facts |
| `names.dfy` | `Names` | the string helpers the scripts call: `lower`, `endswith`, `rfind`, `os.path.basename`, `os.path.splitext`, `os.path.join`, `sorted` |
| `yolo_triage.dfy` | `YoloTriage` | `process_frame` as a method with its nested loop, the specification functions it is proved against, and the lemmas about them |
| `llava_validation.dfy` | `LlavaValidation` | `analyze_image` after the backend call, as a pure function |
| `llava_retry.dfy` | `LlavaRetry` | the per-frame retry loop and the loop over the frames, as methods, with the functions and lemmas that specify them |
| `navigation.dfy` | `Navigation` | the navigation state machine both windows share, with its invariant |
| `selection.dfy` | `Selection` | the window of `selection.py` as a class whose methods update its fields |
| `image_selection.dfy` | `ImageSelection` | the window of `image_selection.py`, whose `select_image` can raise IndexError |

The outside world enters as values:

- The detector's results on a frame, or None when the image cannot be read.
- The backend's outcome on each attempt: a parsed JSON value or the message
  of an exception.
- `int()` and `float()` on JSON values, as functions that may fail.
- The outcome of each file write.
- The directory listing.

Sleeps are counted, not performed.

## Model

| member | source | states |
|---|---|---|
| YoloTriage.Select | src/run_yolo_detection.py:81-82 | a list-comprehension filter never lengthens its input (what it keeps is stated by `SelectSpec`) |
| YoloTriage.Survivors | src/run_yolo_detection.py:61-75 | the boxes kept by the size filter are at most all the detector's boxes (which ones is stated by `DetectionsAreTallBoxes`) |
| YoloTriage.MaxFrom | src/run_yolo_detection.py:77-78 | the running maximum never falls below its start |
| YoloTriage.MetadataPath | src/run_yolo_detection.py:102 | the record path lies under `<OUTPUT_DIR>/metadata/` and ends with `<stem>.json` |
| YoloTriage.ClassifySpec | src/run_yolo_detection.py:80-96 | the tier split decides a frame iff one tier is non-empty, and "person" iff the high tier is. The record carries the frame name, all detections and the maximum, and at least one box is drawn |
| YoloTriage.Triage | src/run_yolo_detection.py:42-105 | an unreadable image gives nothing. A decided frame's record carries the basename of its path, the boxes that pass the size filter, and their running maximum from 0.0 |
| YoloTriage.FlooredResultsDecide | src/run_yolo_detection.py:58-96 | when the detector reports no box below CONF_LOW, as `conf=CONF_LOW` asks, every surviving detection lies in exactly one tier, and a frame is decided iff some box passes the size filter |
| YoloTriage.Converted | src/run_yolo_detection.py:62-64 | every box of a result is converted, one detection per box |
| YoloTriage.Truncate | src/run_yolo_detection.py:64 | `int()` on a box coordinate truncates toward zero: the result is within 1 of the input, on the side of 0 |
| YoloTriage.ProcessFrame | src/run_yolo_detection.py:42-105 | `process_frame` returns exactly the plan `Triage` specifies. Its nested loop keeps the tall boxes seen so far, in order, and their running maximum confidence |
| YoloTriage.TallStep | src/run_yolo_detection.py:62-75 | one box of the inner loop joins the detections iff its height reaches MIN_HEIGHT |
| YoloTriage.RowStep | src/run_yolo_detection.py:61-62 | the boxes of result i follow those of the results before it |
| YoloTriage.SelectAppend | src/run_yolo_detection.py:81-82 | a list-comprehension filter distributes over concatenation |
| YoloTriage.AllBoxesAppend | src/run_yolo_detection.py:61-62 | the boxes of concatenated result lists are the concatenated boxes |
| YoloTriage.SelectSpec | src/run_yolo_detection.py:81-82 | a filter keeps exactly the detections meeting its condition, with multiplicity and in order |
| YoloTriage.SelectCount | src/run_yolo_detection.py:81-82 | a filter keeps each detection meeting its condition as often as it occurs, and no other |
| YoloTriage.SelectSubsequence | src/run_yolo_detection.py:81-82 | a filter keeps the original order |
| YoloTriage.DetectionsAreTallBoxes | src/run_yolo_detection.py:61-75 | `detections` holds exactly the boxes with height >= MIN_HEIGHT, with multiplicity and in detector order |
| YoloTriage.TiersPartition | src/run_yolo_detection.py:81-82 | high tier iff conf >= CONF_HIGH; low tier iff CONF_LOW <= conf < CONF_HIGH; the tiers are disjoint ordered subsequences of `detections` |
| YoloTriage.MaxFromAppend | src/run_yolo_detection.py:77-78 | one more box replaces the running maximum iff its confidence is strictly larger |
| YoloTriage.MaxFromSpec | src/run_yolo_detection.py:54-78 | the running maximum is at least its start, bounds every confidence, and is the start or one of the confidences |
| YoloTriage.MaxConfidenceIsMaximum | src/run_yolo_detection.py:54-78 | `max_confidence` is the larger of 0.0 and the largest confidence among the surviving boxes |
| YoloTriage.SelectNonEmpty | src/run_yolo_detection.py:87-91 | a filtered list is non-empty iff some element meets the condition |
| YoloTriage.TiersOfBoxes | src/run_yolo_detection.py:81-82 | each tier is non-empty iff some detector box is tall enough and in that tier's confidence range |
| YoloTriage.DecisionSpec | src/run_yolo_detection.py:44-96 | "person" iff some tall box reaches CONF_HIGH, counting the high tier (>= 1). Otherwise "ambiguous" iff some tall box is in [CONF_LOW, CONF_HIGH), with count 0. Otherwise, or for an unreadable image, nothing is written or returned |
| YoloTriage.OutputPlanSpec | src/run_yolo_detection.py:48-105 | a decided frame records its name, all surviving detections and their maximum. It draws only the deciding tier: green under `detected_persons/` or yellow under `ambiguous/`. It writes `metadata/<stem>.json` |
| YoloTriage.ShortBoxNeverRecorded | src/run_yolo_detection.py:65-69 | a box shorter than MIN_HEIGHT is never recorded or drawn |
| YoloTriage.SelectSkips | src/run_yolo_detection.py:68-69 | a box failing the filter contributes nothing wherever it sits |
| YoloTriage.AllBoxesUpdate | src/run_yolo_detection.py:61-62 | replacing one result's boxes replaces them in place in the flattened order |
| YoloTriage.ConvertedInsert | src/run_yolo_detection.py:62-64 | converting a row with an inserted box converts the box in place |
| YoloTriage.ShortBoxSurvivors | src/run_yolo_detection.py:65-75 | inserting a short box anywhere leaves `detections` unchanged |
| YoloTriage.ShortBoxIrrelevant | src/run_yolo_detection.py:42-105 | inserting a short box anywhere leaves the whole outcome unchanged: record, tiers, count, maximum and files |
| YoloTriage.DefaultThresholdsExample | src/run_yolo_detection.py:18-96 | boxes (0.75, tall), (0.45, tall) and (0.72, 40 px) under the default thresholds give "person" with count 1, maximum 0.75 and two recorded detections |
| LlavaValidation.Degraded | src/LLAVAselectiontheone.py:98-105 | the degraded record has exactly the five keys: count 0, confidence 0.0, the error message, and two empty lists |
| LlavaValidation.Clamp | src/LLAVAselectiontheone.py:94 | `max(0.0, min(1.0, x))` lies in [0, 1], is x inside it, and is 0.0 below it and 1.0 above it |
| LlavaValidation.AnalyzeImage | src/LLAVAselectiontheone.py:84-105 | whatever the reply, the record has an integer `human_count` and a `confidence` float in [0, 1] |
| LlavaValidation.FailuresDegrade | src/LLAVAselectiontheone.py:84-105 | a raised exception, a non-object reply ("Invalid response format") and a failing coercion each give the degraded record with that failure's message |
| LlavaValidation.SuccessKeepsOtherKeys | src/LLAVAselectiontheone.py:84-96 | on success, only `human_count` (coerced, unclamped) and `confidence` (coerced, clamped) are rewritten. Every other key keeps its value, no key is lost, and `error` is present iff the reply had it |
| LlavaValidation.NegativeCountPassesThrough | src/LLAVAselectiontheone.py:91 | a reported count of -2 is recorded as -2, and a missing confidence as 0.0 |
| LlavaValidation.ClampExamples | src/LLAVAselectiontheone.py:94 | confidences -0.5, 1.7 and 0.42 are recorded as 0.0, 1.0 and 0.42 |
| LlavaValidation.ClampIdempotent | src/LLAVAselectiontheone.py:94 | clamping twice is clamping once |
| LlavaValidation.EmptyObjectDefaults | src/LLAVAselectiontheone.py:84-94 | a reply without a "response" text parses to `{}`, which gives count 0, confidence 0.0 and nothing else |
| LlavaRetry.TerminalRecord | src/LLAVAselectiontheone.py:124-130 | the record written after the last failed attempt is well formed, has count 0 and confidence 0.0, and its error reads "Failed after 3 attempts: " and the last error |
| LlavaRetry.RetryFrom | src/LLAVAselectiontheone.py:116-133 | the attempts from a given one on: at least one and at most MAX_RETRIES attempts, and at most one write per attempt plus the terminal write |
| LlavaRetry.RetryStep | src/LLAVAselectiontheone.py:116-133 | one attempt: stop after a successful write; after the last failed attempt, write the terminal record; otherwise sleep and retry |
| LlavaRetry.RunFrame | src/LLAVAselectiontheone.py:116-133 | the `for attempt in range(MAX_RETRIES)` loop makes exactly the writes, sleeps and escaped exception that `RetryFrom` specifies |
| LlavaRetry.AnalyserWellFormed | src/LLAVAselectiontheone.py:84-118 | every record an attempt analyses is well formed |
| LlavaRetry.RetryFailures | src/LLAVAselectiontheone.py:119-133 | every write but the last failed, and an escaped exception is the last write's. One sleep follows each failed write except one that escapes |
| LlavaRetry.RetryWrites | src/LLAVAselectiontheone.py:118-132 | write k carries attempt k's analysed record and the k-th write outcome. A further write is made only when the third attempt's write failed; it carries "Failed after 3 attempts: <that error>" |
| LlavaRetry.RetryWellFormed | src/LLAVAselectiontheone.py:118-132 | when every analysed record is well formed, so is every record written |
| LlavaRetry.RetryBounds | src/LLAVAselectiontheone.py:116-133 | per frame: 1 to 3 attempts, 1 to 4 writes, and only the last write can succeed. A record is left iff no exception escaped, and that record is well formed. At most 3 sleeps |
| LlavaRetry.FirstWriteSucceeds | src/LLAVAselectiontheone.py:116-121 | when the first write succeeds there is one attempt and no sleep, whatever the backend did. A backend failure is saved as its degraded record |
| LlavaRetry.EveryAttemptFails | src/LLAVAselectiontheone.py:122-133 | when all three writes fail, the terminal record naming the last error is written. Three sleeps follow if that write succeeds; if it fails, its exception escapes after two |
| LlavaRetry.OutputPath | src/LLAVAselectiontheone.py:113 | a frame's output path ends with `<stem>.json` |
| LlavaRetry.StepFrame | src/LLAVAselectiontheone.py:109-133 | a non-image name changes nothing. An image name can add or overwrite only its own output file, and adds its retry loop's sleeps |
| LlavaRetry.BatchFrom | src/LLAVAselectiontheone.py:108-133 | the frame loop never removes a file and never undoes a sleep. Once an exception has escaped, nothing further happens |
| LlavaRetry.Batch | src/LLAVAselectiontheone.py:108-133 | the files present before the script runs are all still present after it (which files it adds is stated by `BatchOutputs`) |
| LlavaRetry.BatchNoCrash | src/LLAVAselectiontheone.py:108-133 | when no remaining frame's retry loop lets an exception escape, the frame loop ends normally |
| LlavaRetry.StepFrameAsWritten | src/LLAVAselectiontheone.py:108-138 | as the file is indented, every image name's iteration ends with an exception, NameError unless one escaped earlier. The files it writes are those of the iteration without line 138 |
| LlavaRetry.BatchFromAsWritten | src/LLAVAselectiontheone.py:108-138 | as written, files are never removed, and once an exception has escaped nothing further happens |
| LlavaRetry.BatchAsWritten | src/LLAVAselectiontheone.py:108-138 | as written, the files present before the script runs are all still present after it |
| LlavaRetry.AsWrittenCrashes | src/LLAVAselectiontheone.py:108-138 | as written, the frame loop ends with an exception iff the listing has an image name |
| LlavaRetry.AsWrittenStopsAtFirstImage | src/LLAVAselectiontheone.py:108-138 | as written, files are never removed, and the only file added is the output of the first image name in sorted order |
| LlavaRetry.AsWrittenMissesAnImage | src/LLAVAselectiontheone.py:108-138 | take two image names with distinct outputs whose first writes succeed. As written, the run ends in NameError and one of the two outputs is missing |
| LlavaRetry.IntendedWritesBoth | src/LLAVAselectiontheone.py:108-133 | for the same two names, the frame loop without the stray fragment ends normally and writes both outputs |
| LlavaRetry.RunBatch | src/LLAVAselectiontheone.py:108-133 | the frame loop ends in exactly the state `Batch` specifies: files written, sleeps, and an escaped exception |
| LlavaRetry.RunImage | src/LLAVAselectiontheone.py:112-133 | one image frame: run the retry loop and keep the record it leaves at `<stem>.json` |
| LlavaRetry.BatchFromStep | src/LLAVAselectiontheone.py:108-110 | the frame loop takes one frame at a time, and an escaped exception ends it |
| LlavaRetry.StepImage | src/LLAVAselectiontheone.py:112-133 | an image frame's record goes to its output path unless an exception escaped |
| LlavaRetry.RunnerSound | src/LLAVAselectiontheone.py:116-133 | every frame's retry loop makes a write and leaves only well-formed records |
| LlavaRetry.BatchKeys | src/LLAVAselectiontheone.py:108-113 | output files are only added or overwritten. Each new one is the output path of an image name among the frames |
| LlavaRetry.BatchComplete | src/LLAVAselectiontheone.py:108-133 | when no exception escapes, every image name among the frames has its output file |
| LlavaRetry.BatchWellFormed | src/LLAVAselectiontheone.py:116-133 | only well-formed records are written |
| LlavaRetry.BatchOutputs | src/LLAVAselectiontheone.py:108-133 | over a whole listing, the only files created are `<stem>.json` of image names, with the extension compared lower-cased. With no escaped exception, every image name has one. Existing files are never removed, and every record written is well formed |
| LlavaRetry.BatchCreated | src/LLAVAselectiontheone.py:108-113 | over a whole listing, every file created is the `<stem>.json` of an image name of the listing |
| LlavaRetry.BatchCovers | src/LLAVAselectiontheone.py:108-133 | over a whole listing, with no escaped exception, every image name of the listing has its `<stem>.json` |
| LlavaRetry.BatchKeepsWellFormed | src/LLAVAselectiontheone.py:116-133 | over a whole listing, when the files present are well formed, every file afterwards is too |
| LlavaRetry.FirstWriteNoCrash | src/LLAVAselectiontheone.py:116-121 | a frame whose first write succeeds lets no exception escape |
| LlavaRetry.AsWrittenFirstImageOnly | src/LLAVAselectiontheone.py:108-138 | as written, when the first frame is an image name whose retry loop ends normally, the run ends in NameError with only that frame's output added |
| Names.LowerChar | src/LLAVAselectiontheone.py:109 | `lower()` on one character maps A-Z to a-z and leaves every other character |
| Names.IsImageName | src/LLAVAselectiontheone.py:109 | an image name is at least four characters long |
| Names.Lower | src/LLAVAselectiontheone.py:109 | `lower()` keeps the length of the name |
| Names.LowerOfSuffix | src/LLAVAselectiontheone.py:109 | lower-casing keeps a suffix that is already lower-case, such as ".jpg" |
| Names.KeepImages | src/selection.py:15 | the filter never lengthens the listing |
| Names.KeepImagesSpec | src/selection.py:15 | the filter keeps exactly the image names, with multiplicity and in order |
| Names.KeepImagesCount | src/image_selection.py:20 | each image name is kept as often as it occurs, and nothing else is kept |
| Names.KeepImagesSubsequence | src/image_selection.py:20 | the filter keeps the listing's order |
| Names.CaseFoldingAcceptsMore | src/image_selection.py:20 | every name the case-sensitive filter keeps, the lower-casing filter keeps too |
| Names.UpperCaseExtension | src/selection.py:15 | "F.JPG" passes only the lower-casing filter |
| Names.LastIndex | src/LLAVAselectiontheone.py:113 | `rfind` returns the last index holding the character, or -1 when there is none |
| Names.Basename | src/run_yolo_detection.py:48 | `os.path.basename` has no '/' and is the longest such suffix of the path: it is the whole path or follows a '/' |
| Names.BasenameOfFramePath | src/run_yolo_detection.py:48-110 | the basename of `f"{dir}/{name}"` is `name` |
| Names.Stem | src/run_yolo_detection.py:102 | `os.path.splitext(p)[0]` is a prefix of p. When it is shorter, the removed part starts at the last '.' and lies in the last path component |
| Names.StemOfExtension | src/LLAVAselectiontheone.py:113 | splitting ".xyz" off a plain name gives back the name |
| Names.StemWithoutDot | src/LLAVAselectiontheone.py:113 | a name with no '.' is its own stem |
| Names.Join | src/LLAVAselectiontheone.py:112-113 | `os.path.join(dir, name)` ends with name. It is name when name is absolute, and otherwise dir followed by name, with a '/' between them when needed |
| Names.LexLeReflexive | src/LLAVAselectiontheone.py:108 | string order is reflexive |
| Names.LexLeTotal | src/LLAVAselectiontheone.py:108 | string order is total |
| Names.LexLeTransitive | src/LLAVAselectiontheone.py:108 | string order is transitive |
| Names.LexLeAntisymmetric | src/LLAVAselectiontheone.py:108 | string order is antisymmetric |
| Names.Sort | src/LLAVAselectiontheone.py:108 | `sorted` returns a permutation of its input |
| Names.Insert | src/selection.py:16 | inserting a name adds exactly that name to the list's contents |
| Names.InsertSorted | src/selection.py:16 | inserting into a sorted list keeps it sorted |
| Names.SortSorted | src/selection.py:16 | `sorted` returns a sorted list |
| Names.SortedPermutationUnique | src/image_selection.py:20 | two sorted permutations of the same names are equal, so `sorted` is determined by its input's contents |
| Names.ImageFiles | src/image_selection.py:20 | the image list holds only image names |
| Names.ImageFilesSpec | src/image_selection.py:20 | `image_files` is sorted and holds each image name of the listing as often as the listing does, and nothing else. It is the only sorted arrangement of those names |
| Navigation.Next | src/selection.py:54-58 | `next_image` keeps the selection, moves the index forward by at most one, and keeps the invariant |
| Navigation.Prev | src/selection.py:61-65 | `prev_image` keeps the selection, moves the index back by at most one, and never below 0 |
| Navigation.Select | src/selection.py:68-85 | the guarded `select_image` only extends the selection, by at most one name. A name added is the one at the index, which was in range |
| Navigation.SelectUnguarded | src/image_selection.py:67-76 | the unguarded `select_image` raises iff the index is outside Python's range. Otherwise it only extends the selection, by at most one name |
| Navigation.StartInv | src/selection.py:24-25 | the start-up state satisfies the invariant |
| Navigation.RunInv | src/selection.py:24-85 | any sequence of presses keeps the invariant: the index lies on a name of the list (or is 0), and the selection is duplicate-free and drawn from the list |
| Navigation.ApplyInv | src/selection.py:54-85 | each of Next, Previous and Select keeps the invariant |
| Navigation.AppendFresh | src/selection.py:73-74 | appending an absent name keeps the selection free of duplicates |
| Navigation.SessionBounds | src/selection.py:24-85 | from start-up, after any presses on a non-empty list: 0 <= index <= len - 1, no duplicates, only listed names, and at most len of them |
| Navigation.RunExtendsSelection | src/selection.py:54-85 | nothing is ever deselected: the selection before any presses is a prefix of the one after |
| Navigation.SelectRepeat | src/selection.py:73 | selecting an already selected name changes nothing |
| Navigation.SelectFresh | src/selection.py:71-85 | selecting a fresh name appends exactly it and advances unless at the last name |
| Navigation.SelectOutOfRange | src/selection.py:71 | with the index out of range, the guarded select does nothing |
| Navigation.PrevUndoesNext | src/selection.py:54-65 | within the list, Previous undoes Next |
| Navigation.NextUndoesPrev | src/selection.py:54-65 | within the list, Next undoes Previous |
| Navigation.MovesAtEnds | src/selection.py:54-65 | Next and Previous leave the selection alone, and do nothing at the last and first index |
| Navigation.PyIndex | src/image_selection.py:71 | `image_files[i]` succeeds iff -len <= i < len, and is element i for 0 <= i < len |
| Navigation.UnguardedAgreesWithGuarded | src/image_selection.py:67-76 | under the invariant, the unguarded select raises iff the list is empty, and otherwise equals the guarded one |
| Navigation.UnguardedNegativeIndex | src/image_selection.py:71 | without the invariant, index -1 selects the last name instead of raising |
| Selection.Selector.constructor | src/selection.py:15-25 | the list is the sorted case-sensitively filtered listing; the index starts at 0 and the selection empty, so the invariant holds |
| Selection.Selector.NextImage | src/selection.py:54-58 | the fields become `Navigation.Next` of the old ones, and the invariant is kept |
| Selection.Selector.PrevImage | src/selection.py:61-65 | the fields become `Navigation.Prev` of the old ones, and the invariant is kept |
| Selection.Selector.SelectImage | src/selection.py:68-85 | the fields become `Navigation.Select` of the old ones (append in place, then `next_image`), and the invariant is kept |
| ImageSelection.Selector.constructor | src/image_selection.py:20-29 | the list is the sorted listing filtered on lower-cased names; the state starts at 0 with an empty selection |
| ImageSelection.Selector.NextImage | src/image_selection.py:53-58 | the fields become `Navigation.Next` of the old ones, and the invariant is kept |
| ImageSelection.Selector.PrevImage | src/image_selection.py:60-65 | the fields become `Navigation.Prev` of the old ones, and the invariant is kept |
| ImageSelection.Selector.SelectImage | src/image_selection.py:67-76 | it reports IndexError exactly when the index is out of Python's range, and then changes nothing. Otherwise it selects like the guarded version. Under the invariant it raises iff the list is empty |

## Left out

- The detector's confidence floor is not modelled. `model(img, conf=CONF_LOW, ...)`
  at run_yolo_detection.py:58 reports no box below CONF_LOW, but `Triage`
  takes arbitrary results. `YoloTriage.FlooredResultsDecide` states what the
  floor adds.
- The detector, image decoding and drawing are left out (`model(...)`,
  `cv2.imread`, `draw_boxes`, `cv2.imwrite`, run_yolo_detection.py:22-40, 58,
  99). The detector's results and the readability of the image are inputs. A
  plan names the image path, the boxes drawn and their colour. Label text and
  pixels are not modelled.
- The backend call is left out (image `verify`, base64 encoding, the HTTP
  POST and its timeout, LLAVAselectiontheone.py:21-82). So is JSON text
  parsing. What an attempt ends in, a parsed value or an exception's message,
  is an input.
- `int()` and `float()` on JSON values are abstract functions that may fail.
  Their exact rules (strings such as "0.42", booleans, truncation) are not
  modelled.
- Confidences are unbounded reals, so NaN and infinities are not modelled.
- `time.sleep(2)` is counted rather than performed, and the two seconds of
  each sleep are not modelled. `tqdm` progress bars and
  the final `print` are not modelled.
- Writes are modelled by their outcome. A failed write leaves the previous
  file contents in place, and a partly written file is not modelled.
- Records are maps, so the key order in which `json.dump` writes them is not
  modelled.
- `process_frame` writes the annotated image before the JSON record. A
  failing `open` of the record at run_yolo_detection.py:102, which would
  raise after the image was written, is not modelled.
- LlavaRetry.Batch, LlavaRetry.BatchComplete, LlavaRetry.BatchOutputs: these
  describe the frame loop without lines 138-172 of LLAVAselectiontheone.py.
  As the file is indented, line 138 belongs to the body of the frame loop. It
  reads the undefined name `frames`, so the script ends with NameError after
  the first image name's retry loop, having written at most one record. That
  behaviour is modelled by `LlavaRetry.BatchAsWritten` (see "## Findings").
  The drawing the fragment would do after that point is not modelled.
- The driver loop of run_yolo_detection.py:108-110 is not modelled, since it
  only calls `process_frame` on each filtered name. Its frame path
  `f"{FRAMES_DIR}/{frame_file}"` is covered by `Names.BasenameOfFramePath`.
- The directory creation at run_yolo_detection.py:12-14,
  LLAVAselectiontheone.py:12, selection.py:12 and image_selection.py:17 is
  not modelled.
- The Tk widgets, `show_current_image`, the display resize and
  `shutil.copy2` of the selection windows are left out. They are GUI and
  filesystem work. image_selection.py breaks off at line 91 in the middle of
  the widget setup.
- A failing `shutil.copy2` at selection.py:79 or image_selection.py:74 is not
  modelled. It raises after the append and before `next_image`, which would
  leave the name selected and the index where it was.
- Names.LowerChar: only ASCII letters are lower-cased. Python's
  `str.lower()` also folds non-ASCII letters.
- Names.LexLeTotal: strings compare by code point, as Python does. No locale
  or normalisation applies.
- The other scripts of the repository are not part of this model: result
  analysis, plotting, frame extraction, the two real-time detector scripts
  and CSV cleaning.

### Behaviour of the code worth knowing

- `human_count` from the backend is coerced with `int()` but not clamped.
  A negative count is kept (`LlavaValidation.NegativeCountPassesThrough`).
- Backend failures are not retried. `analyze_image` catches every exception
  and returns a degraded record. Only a failed file write causes another
  attempt. A backend that fails on every attempt therefore leads to one
  attempt, and its degraded record is saved (`LlavaRetry.FirstWriteSucceeds`).
- `time.sleep(2)` also follows the last failed attempt when its terminal
  write succeeds, giving three sleeps. If the terminal write fails, its
  exception escapes the script and ends the frame loop
  (`LlavaRetry.EveryAttemptFails`, `LlavaRetry.BatchOutputs`).
- An empty "response" text is not valid JSON. `json.loads` raises, so the
  degraded record carries that parse error, not "Invalid response format".
  A reply without a "response" key parses to `{}`, which gives the defaults
  (`LlavaValidation.EmptyObjectDefaults`).
- Every box that passes the size filter is recorded in `detections` and
  counts toward `max_confidence`, whichever tier it falls in. A tall box
  below CONF_LOW, if the detector returned one, would also be recorded while
  being left out of both tiers. The call at line 58 asks the detector for no
  such box (`YoloTriage.FlooredResultsDecide`).
- selection.py filters on the case-sensitive name. image_selection.py and
  the vision-model loop filter on the lower-cased name
  (`Names.UpperCaseExtension`).

## Findings

| source | as written | input that shows it | evidently intended | confidence | as-written member | corrected member |
|---|---|---|---|---|---|---|
| src/LLAVAselectiontheone.py:138 | `for frame_name in tqdm(frames):` is indented into the body of the frame loop of line 108, and `frames` is never defined, so the first image name's iteration raises NameError after its retry loop | a listing with "a.jpg" and "b.jpg", where every first write succeeds: only one of `a.json` and `b.json` is written, and the script ends in NameError | the frame loop of lines 108-133 processes every image name of the listing | high, not executed | LlavaRetry.AsWrittenMissesAnImage | LlavaRetry.IntendedWritesBoth |
