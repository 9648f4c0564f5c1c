# Verification of the VisionForge release tooling

VisionForge ships an Android client, a Windows client and a Host. The Python tools modelled here decide whether a
release may leave the house: they score the detection model, rewrite it for the phone, stage the private model
files, check evidence archives, sign and verify the release manifest, read source code for forbidden content, judge
device logs and drive the final acceptance run. Each part is a Dafny model of one or more of those tools together
with proofs of what they are for. Loops and updates in place are methods with invariants, proved equal to
functions; the laws are lemmas about these functions. What a function that both sides of a law share computes is
said a second time, in other terms, and proved: the modules ending in `Terms`, and `OverlapCells`, `Measures`,
`SplitForm`, `JsonGrammar`, `CommentTokens`, `LfsBytes` and `ModelNames`. `Wrappers`, `Characters` and `Sums` hold
what several parts share.

Check everything with `dafny verify dfyconfig.toml`.

## The parts

- **Detection accuracy** (`StableSorting`, `Picking`, `Rounding`, `Geometry`, `OverlapCells`, `GreedyMatching`,
  `MatchingBounds`, `ClassDecomposition`, `AveragePrecision`, `Evaluation`, `Measures`). The overlap of two boxes is
  counted in cells, and every measure is said outright. Greedy matching is one to one, maximal and within a factor 2
  of the best; the all-class run is the sum of the per-class runs; average precision falls as the threshold rises.
- **Split rewriting** (`Tensors`, `Names`, `SplitRewriter`, `SplitPreservation`, `SplitForm`, `SplitExamples`). A
  graph is evaluated with every operator other than Split and Slice left open. The rewritten graph gives every
  original name the same tensor exactly as long as every Split reached meets lengths that fit (`InStepExactly`,
  `SplitInStepIff`). Where they do not, because they do not fill the axis or a feed overrides them, two concrete
  graphs show the difference.
- **Staging** (`Paths`, `ArtifactLock`, `LockTerms`, `Staging`). The output directory and its backup under renames and
  deletions that may fail at any step. All-or-nothing holds exactly from the states in which the output is there or no
  backup is left over. A lock may hold a target inside another, and such a lock can never be staged.
- **Evidence archives** (`JsonValue`, `ArchivePaths`, `Evidence`, `EvidenceTerms`). Files may grow or deliver short
  reads; the bytes read stay within the total, and on a quiet archive acceptance is correctness.
- **Signed manifest** (`Base64`, `Base64Terms`, `Utf8`, `JsonText`, `JsonGrammar`, `ManifestPayload`, `PayloadTerms`,
  `SignedManifest`). Printer and parser of canonical JSON (RFC 8259), strict Base64 (RFC 4648, sections 3.5 and 4),
  and signing over an abstract scheme in which every signature verifies under its key's public half.
- **Comment stripping** (`CommentStripping`, `CommentTokens`). The substitution for C-like sources keeps the layout
  and all literals and is idempotent, stray quotes and unterminated comments included.
- **Constants of Python modules** (`SoleBinding`). The analysis is exact about what its visitor sees. Its promise,
  that every completed run leaves the returned text, is false for some modules: a parameter annotation, the default of
  a lambda and `from m import *` can rebind the name unseen. `ReliableExactly` gives the exact condition, for a
  semantics in which branches, loops and short circuits may evaluate any parts any number of times. (Python 3.14 no
  longer evaluates annotations when a function is defined.)
- **Private bytes in sources and archives** (`LfsPointer`, `LfsBytes`, `SourceTree`, `SourceTreeLaws`, `LockedBytes`,
  `ModelNames`). The directory worklist refines a depth-first walk that delivers each file once, and the lookup by
  size first agrees with comparing every hash, whenever the announced size is the real one.
- **Safe idle** (`SafeIdle`, `IdleTerms`). The log evaluation against its meaning on unsorted traces. Times are
  compared without sequence numbers, so a reactivation in the very millisecond of the stop goes unseen.
- **Acceptance run** (`InstallerCommand`, `InstallerTerms`, `Acceptance`). Every run, whatever its commands answer,
  whichever of them or of the files they leave raises, however its own writes go, and whatever an earlier run left at
  the report's place. The claim that exit code 0 occurs exactly when the last report says ok is false: nothing removes
  an earlier report, and the interim report stays behind when packaging or its summaries raise.
  `Acceptance.OkReportExactly` states the exact condition. The installer command passes the packager's check exactly
  when the device serial is not mistaken for an option (`InstallerCommand.Clashes`).
- **Model input** (`Letterbox`). Where a picture goes on the square canvas, and that the phone's bytes are the
  canvas's own.

## Model

| member | source | states |
|---|---|---|
| StableSorting.StableSortUnique | tools/evaluate_yolo_detection_accuracy.py:411-415 | Only one ordered rearrangement keeps the input order of equal keys, so every result about sorted predictions holds for whatever stable algorithm `sorted` uses. |
| StableSorting.FilterSortCommute | tools/evaluate_yolo_detection_accuracy.py:411-415 | Filtering before a stable sort and after it give the same list: the class filter may be applied on either side. |
| Geometry.OverlapBounds | tools/evaluate_yolo_detection_accuracy.py:522-531 | Intersection over union is symmetric and lies between 0 and 1 for all rectangles, degenerate ones included. |
| Geometry.FullOverlap | tools/evaluate_yolo_detection_accuracy.py:522-531 | For valid boxes the overlap is 1 exactly when the rectangles are equal. |
| OverlapCells.OverlapCountsCells | tools/evaluate_yolo_detection_accuracy.py:522-531 | For whole-number corners the overlap times the number of unit cells lying in either box is the number of cells lying in both, and it is 0 when no cell lies in either. |
| OverlapCells.OverlapMoves | tools/evaluate_yolo_detection_accuracy.py:522-531 | Magnifying both boxes by any positive factor and moving them alike leaves the overlap unchanged. |
| OverlapCells.OverlapCountsFineCells | tools/evaluate_yolo_detection_accuracy.py:522-531 | So the count holds on every finer grid: for all pairs of boxes with rational corners. |
| Rounding.Round6Monotone | tools/evaluate_yolo_detection_accuracy.py:450-460 | Six-digit half-even rounding never inverts an order, so bounds on exact values survive it. |
| Rounding.Round6Near | tools/evaluate_yolo_detection_accuracy.py:450-460 | Rounding moves a number by at most half a unit of the sixth decimal. |
| Rounding.Round6Exactly | tools/evaluate_yolo_detection_accuracy.py:450-460 | A rounded number is the nearest millionth and no other; of two equally near ones, the even one. |
| GreedyMatching.FindBest | tools/evaluate_yolo_detection_accuracy.py:424-435 | The inner scan, with its running index and overlap, computes the value `Best`. |
| GreedyMatching.BestIsFirstMaximum | tools/evaluate_yolo_detection_accuracy.py:427-435 | The scan finds the first of the free truths of the class with the largest positive overlap, and none exactly when no free truth overlaps. |
| GreedyMatching.ClaimIsFair | tools/evaluate_yolo_detection_accuracy.py:436-439 | A claimed truth was free, has the prediction's class, and overlaps it positively and at least by the threshold. |
| GreedyMatching.TakenGrows | tools/evaluate_yolo_detection_accuracy.py:437-437 | A `matched` flag is never cleared: what some prefix of the predictions has claimed stays claimed. |
| GreedyMatching.ScoreAtThreshold | tools/evaluate_yolo_detection_accuracy.py:400-462 | The whole scoring loop: true plus false positives are all predictions of the class, true positives plus false negatives are all its truths, and the four ratios follow from the run. |
| GreedyMatching.Counting | tools/evaluate_yolo_detection_accuracy.py:423-441 | Every prediction is counted once and the true positives are as many as the claimed truths. |
| MatchingBounds.GreedyIsMatching | tools/evaluate_yolo_detection_accuracy.py:423-441 | The pairs formed are one to one, admissible, and as many as the true positives. |
| MatchingBounds.GreedyIsMaximal | tools/evaluate_yolo_detection_accuracy.py:423-441 | No admissible pair is left with both its prediction and its truth unpaired. |
| MatchingBounds.HalfOptimal | tools/evaluate_yolo_detection_accuracy.py:423-447 | Any one-to-one matching at the same threshold has at most twice as many pairs as there are true positives. |
| MatchingBounds.MatchedOverlap | tools/evaluate_yolo_detection_accuracy.py:436-439 | The summed overlap averages at least the threshold and at most 1 over the true positives. |
| MatchingBounds.LowerThresholdTakesMore | tools/evaluate_yolo_detection_accuracy.py:423-441 | After the same predictions the lower threshold has claimed every truth that the higher one has, and counts no fewer true positives. |
| Measures.RunExactly | tools/evaluate_yolo_detection_accuracy.py:423-441 | The run said prediction by prediction: each takes the first of the free truths of its picture and class that it overlaps most, if that overlap is positive and reaches the threshold, and none otherwise. The flags, both counts and the summed overlap are those of the truths so taken. |
| Measures.GreedyExists | tools/evaluate_yolo_detection_accuracy.py:423-441 | Every input has such a list of taken truths. |
| Measures.SortedExactly | tools/evaluate_yolo_detection_accuracy.py:411-415 | The predictions are taken by falling confidence, equal ones in the order they came in. |
| Measures.TruthsOfClass | tools/evaluate_yolo_detection_accuracy.py:418-421 | The truths that count are those of the class, per picture and in their order. |
| Measures.ScoreExactly | tools/evaluate_yolo_detection_accuracy.py:448-462 | Precision is the rounded share of true positives among predictions, recall among truths, F1 the share of twice the true positives among both, and the mean overlap that of the true positives; each is 0 of nothing. |
| ClassDecomposition.BestFiltered | tools/evaluate_yolo_detection_accuracy.py:427-435 | The scan over one class's truths finds the same truth as the scan over all of them, with the same choice among equals. |
| ClassDecomposition.ClassRunFollows | tools/evaluate_yolo_detection_accuracy.py:400-441 | At every point of the all-class run, its flags restricted to a class are those of that class's own run. |
| ClassDecomposition.WholeRunIsSum | tools/evaluate_yolo_detection_accuracy.py:149-166 | True positives, false positives and matched overlap of the interleaved run are the sums over the collected classes. |
| ClassDecomposition.WholeFnIsSum | tools/evaluate_yolo_detection_accuracy.py:442-447 | So are the false negatives. |
| AveragePrecision.PrecisionAtIsMaximum | tools/evaluate_yolo_detection_accuracy.py:510-514 | The interpolated precision at a level is the largest one among the points that reach it, and 0 when none does. |
| Measures.SweepExactly | tools/evaluate_yolo_detection_accuracy.py:476-508 | After each prediction the sweep stands at the truths taken so far over all truths and over the predictions so far. |
| Measures.ApExactly | tools/evaluate_yolo_detection_accuracy.py:509-519 | The average precision is the rounded mean of 101 heights, for the recalls 0, 0.01 up to 1: each the largest precision of a point of at least that recall, 0 when there is none. |
| Measures.NoTruthsNoMeasure | tools/evaluate_yolo_detection_accuracy.py:472-475 | A class has an average precision exactly when some truth is of it. |
| AveragePrecision.Sweep | tools/evaluate_yolo_detection_accuracy.py:476-508 | The loop over sorted predictions, which leaves out the class test, produces one point after each prediction, as the scored run would. |
| AveragePrecision.AveragePrecisionOf | tools/evaluate_yolo_detection_accuracy.py:465-519 | The average precision of a class, absent exactly when the class has no truth. |
| AveragePrecision.ApFallsWithThreshold | tools/evaluate_yolo_detection_accuracy.py:465-519 | Average precision never rises when the overlap threshold rises, rounding included, and is present at both or neither. |
| AveragePrecision.ApUnit | tools/evaluate_yolo_detection_accuracy.py:509-519 | Average precision lies between 0 and 1. |
| AveragePrecision.ConfidenceCutIsPrefix | tools/evaluate_yolo_detection_accuracy.py:144-148 | Dropping the predictions below a confidence keeps a prefix of the sorted sweep. |
| AveragePrecision.ScoreIsSweepPoint | tools/evaluate_yolo_detection_accuracy.py:144-162 | For one class the recall and precision at a minimum confidence are those of the sweep's point after the predictions kept, and 0 when none is. |
| Evaluation.ClassMapBelowAp50 | tools/evaluate_yolo_detection_accuracy.py:167-189 | For every class mAP50-95 is at most AP50, and both are absent together. |
| Measures.ClassMapExactly | tools/evaluate_yolo_detection_accuracy.py:167-189 | mAP50-95 of a class is the rounded mean of its average precisions at 0.50, 0.55 up to 0.95. |
| Measures.ColumnsExactly | tools/evaluate_yolo_detection_accuracy.py:190-203 | The two means of the report are taken over exactly the rows that have a value, in their order. |
| Evaluation.CollectClassIds | tools/evaluate_yolo_detection_accuracy.py:661-671 | The class list is increasing and holds exactly the classes of the truths and of the predictions. |
| Evaluation.CollectIssues | tools/evaluate_yolo_detection_accuracy.py:534-571 | No issue is raised exactly when there is a truth, completeness holds where demanded, and every gate in use is met. |
| Evaluation.ScoreClasses | tools/evaluate_yolo_detection_accuracy.py:158-203 | The loop over the classes: its rows, the means over the rows that have a value, and the sums of the counts. |
| Evaluation.OverallIsSum | tools/evaluate_yolo_detection_accuracy.py:149-166 | The overall counts are the sums of the class rows. |
| Evaluation.EvaluateInputs | tools/evaluate_yolo_detection_accuracy.py:123-231 | One evaluation: the overall score and every row's score are those of the stated runs, ratios included; the overall counts are the sums of the rows; the rows are in class order and cover every class; the two means are those of the rows and in order; and `ok` holds exactly when every demand is met. |
| Tensors.PieceIsSlice | android_inference_benchmark/tools/rewrite_nnapi_split_model.py:34-53 | Output `i` of a Split is the slice that starts at the sum of the lengths before it and is `lengths[i]` long. |
| Tensors.PiecesTile | android_inference_benchmark/tools/rewrite_nnapi_split_model.py:34-53 | The pieces of a Split joined along the axis give the input back: no gap and no overlap. |
| Names.DecimalRoundTrip | android_inference_benchmark/tools/rewrite_nnapi_split_model.py:36-36 | Reading a printed number gives it back; only zero starts with the digit 0. |
| Names.GeneratedNamesDiffer | android_inference_benchmark/tools/rewrite_nnapi_split_model.py:36-44 | No two generated tensors share a name. |
| Names.DecimalPlaces | android_inference_benchmark/tools/rewrite_nnapi_split_model.py:36-36 | Every decimal digit counts by its place: the value of a text is that of its front times the power of ten of what follows, plus the value of that. |
| SplitRewriter.SliceOutputs | android_inference_benchmark/tools/rewrite_nnapi_split_model.py:34-53 | The loop over the outputs of one Split builds the Slice nodes, their index tensors and the count. |
| SplitRewriter.RewriteStaticSplits | android_inference_benchmark/tools/rewrite_nnapi_split_model.py:13-60 | The pass replaces the graph's nodes in place, appends the new initializers and returns the count; a Split it refuses names itself and leaves the graph as it was. |
| SplitRewriter.StaysRefused | android_inference_benchmark/tools/rewrite_nnapi_split_model.py:31-32 | One refused Split refuses the whole graph with the name of the first such node. |
| SplitForm.AxisExactly | android_inference_benchmark/tools/rewrite_nnapi_split_model.py:30-30 | The axis is the number of the first attribute called axis, and 0 when none is called so. |
| SplitForm.StaticExactly | android_inference_benchmark/tools/rewrite_nnapi_split_model.py:15-18 | The lengths of a node are static exactly when it is a Split of two inputs or more whose second names an initializer, of which the last so named counts. |
| SplitForm.ElementsRowMajor | android_inference_benchmark/tools/rewrite_nnapi_split_model.py:29-29 | The flattened lengths list every element of the tensor at its row-major place. |
| SplitForm.RefusesExactly | android_inference_benchmark/tools/rewrite_nnapi_split_model.py:31-32 | The pass fails with the name of the first static Split that has another number of lengths than outputs or a length that is not positive, and only then. |
| SplitForm.ResultExactly | android_inference_benchmark/tools/rewrite_nnapi_split_model.py:22-57 | Node by node: what is no static Split stays, and each static Split leaves, in its place, one Slice per output with the data, the four index tensors, that output and its own name; four index tensors come with each Slice. |
| SplitForm.IndexTensors | android_inference_benchmark/tools/rewrite_nnapi_split_model.py:34-53 | Every Slice's four tensors: the sum of the lengths before it, that sum one length further, the Split's axis, and 1. |
| SplitForm.AxisOneWritten | android_inference_benchmark/tools/rewrite_nnapi_split_model.py:22-57 | A channel split with an attribute before the axis, and the exact nodes, names and tensors written for it. |
| SplitPreservation.SlicesArePieces | android_inference_benchmark/tools/rewrite_nnapi_split_model.py:34-53 | The slices are the pieces of a Split by any lengths exactly when these split the axis and each is what the axis leaves of its slice. |
| SplitPreservation.SplitInStepIff | android_inference_benchmark/tools/rewrite_nnapi_split_model.py:22-53 | At one static Split, whatever lengths arrive, from the initializer or a feed, the rewritten nodes do what the Split does exactly when those lengths cut the data as the slices do, or the data or its axis is missing and there is a Slice to notice. |
| SplitPreservation.UnfedSplitInStepIff | android_inference_benchmark/tools/rewrite_nnapi_split_model.py:22-53 | For lengths that nobody overrides that is: exactly when they fill the axis, or the data or its axis is missing and there is a Slice to notice. |
| SplitPreservation.InStepExactly | android_inference_benchmark/tools/rewrite_nnapi_split_model.py:13-60 | Original and rewritten graph stand alike after every node exactly when every static Split that is reached meets lengths that fit. |
| SplitPreservation.RewritePreservesMeaning | android_inference_benchmark/tools/rewrite_nnapi_split_model.py:13-60 | When every static Split that is reached meets lengths that fit, both graphs succeed or both fail and every original name keeps its tensor, whatever the other operators mean; a successful run that overrides no lengths meets only such Splits. |
| SplitPreservation.SuccessFits | android_inference_benchmark/tools/rewrite_nnapi_split_model.py:22-53 | A run that succeeds and overrides no lengths has met only Splits whose lengths fit. |
| SplitPreservation.OutputsInOrder | android_inference_benchmark/tools/rewrite_nnapi_split_model.py:22-57 | The rewritten nodes assign exactly the original names in the original order, each once. |
| SplitPreservation.SecondPassIsIdle | android_inference_benchmark/tools/rewrite_nnapi_split_model.py:22-60 | No Split with constant lengths is left: a second pass changes nothing. |
| SplitForm.SliceElement | android_inference_benchmark/tools/rewrite_nnapi_split_model.py:48-53 | A slice holds the elements whose position along the axis lies within its bounds, moved to the front. |
| SplitExamples.UnfitLengthsGoUnnoticed | android_inference_benchmark/tools/rewrite_nnapi_split_model.py:29-53 | Lengths that do not add up to the axis: the original graph fails, the rewritten one silently drops elements. |
| SplitExamples.OverriddenLengthsDiffer | android_inference_benchmark/tools/rewrite_nnapi_split_model.py:15-26 | Lengths that are an initializer but also a graph input can be overridden, and then the two graphs differ. |
| Paths.JoinSplit | tools/prepare_android_private_artifacts.py:57-63 | Joining the parts of a text gives the text back, and no part holds the separator. |
| Paths.SplitJoin | tools/prepare_android_private_artifacts.py:57-63 | Splitting joined parts gives the parts back. |
| Paths.SplitExactly | tools/prepare_android_private_artifacts.py:57-63 | Splitting gives exactly the parts that lie between the separators and fill the text. |
| LockTerms.StrictExactly | tools/prepare_android_private_artifacts.py:57-63 | A text is read as a relative path of some parts exactly when it is not empty, has no backslash, NUL or leading slash, no slash-separated part is `..`, and the parts are the others than empty and one dot, in order. |
| ArtifactLock.LoadLock | tools/prepare_android_private_artifacts.py:80-207 | A parsed lock loads exactly when its header and policy are in order, every row has fields of the right types, and the rows are a valid lock; what loads is the rows' artifacts, in order. |
| ArtifactLock.LoadRows | tools/prepare_android_private_artifacts.py:123-207 | The rows load exactly when there are some, each is valid, public fields included, and no id, source or target is used twice. |
| LockTerms.LoadsExactly | tools/prepare_android_private_artifacts.py:80-207 | A lock loads as a list of artifacts exactly when its JSON says so: header and policy by their members, each row by its fields, letter for letter, public storage included, and no id, source or target twice. |
| LockTerms.TargetsStayInside | tools/prepare_android_private_artifacts.py:57-67 | Behind any root the target of every loaded artifact stays under one of the three allowed places, and its source under the root. |
| ArtifactLock.VerifyArtifacts | tools/prepare_android_private_artifacts.py:243-277 | Verification succeeds exactly when the variant is debug, qa or owner, some artifact allows it, and every artifact that does is there with the locked size and digest and is no pointer file; it returns these artifacts in order. |
| Staging.CopyBlocks | tools/prepare_android_private_artifacts.py:325-335 | Block by block, the copy is the source and the running digest is its digest. |
| Staging.Build | tools/prepare_android_private_artifacts.py:318-357 | The staged tree is the copied and re-read artifacts plus the manifest, or nothing when any step fails. |
| Staging.Directories.Restore | tools/prepare_android_private_artifacts.py:365-369 | The handler gives a leftover backup its place back when the output is missing. |
| Staging.Directories.StageArtifacts | tools/prepare_android_private_artifacts.py:280-370 | One staging run on the output and backup directories, for every point where it may fail. |
| Staging.RunIsAllOrNothing | tools/prepare_android_private_artifacts.py:358-370 | From a safe state one run leaves the old output or the new one, whole; it never loses the output; success leaves the new one and no backup. |
| Staging.SafeIsNeeded | tools/prepare_android_private_artifacts.py:358-370 | That promise holds for every course of events exactly when the output is there or no backup is left over. |
| Staging.RunsAreAllOrNothing | tools/prepare_android_private_artifacts.py:311-370 | Over any sequence of runs failing anywhere, the output is always the initial one or one whole tree some run built, and once present stays present. |
| Staging.SuccessStagesExactly | tools/prepare_android_private_artifacts.py:311-370 | A successful run leaves exactly the locked targets with their digests and sizes, the manifest, and no leftover. |
| Staging.DoneMeansNoneInside | tools/prepare_android_private_artifacts.py:318-370 | No run, whatever happens, stages a target that lies inside another. |
| Staging.UndisturbedRunExactly | tools/prepare_android_private_artifacts.py:280-370 | Left undisturbed, verified artifacts of a valid lock are staged exactly when no target lies inside another. |
| Staging.NestedLockNeverStaged | tools/prepare_android_private_artifacts.py:143-152 | A lock that loads and can never be staged: only equal targets are refused, not `assets/qnn/a` beside `assets/qnn/a/b`. |
| ArchivePaths.LocalPathsPass | tools/dual_machine_cryptographic_evidence.py:468-485 | The path tests, in their order, leave exactly the texts of 1 to 1024 characters without NUL, backslash or colon whose parts are none of empty, `.` and `..`. |
| ArchivePaths.AcceptedPaths | tools/dual_machine_cryptographic_evidence.py:488-499 | An accepted path rejoins to itself and names a place strictly under the root, so the escape check behind it never fires. |
| Evidence.HashArtifact | tools/dual_machine_cryptographic_evidence.py:548-606 | However a file behaves while being read, it passes exactly when all sizes agree with the declared one and the digest of what was read matches; no more than the budget is read. |
| Evidence.ReadArtifacts | tools/dual_machine_cryptographic_evidence.py:635-663 | The artifact list is read exactly when every entry is valid, no path is repeated and the declared sizes fit the total. |
| Evidence.ReadCases | tools/dual_machine_cryptographic_evidence.py:641-672 | The case list is read exactly when every entry is valid and no case is repeated. |
| Evidence.HashAll | tools/dual_machine_cryptographic_evidence.py:683-695 | The artifacts are hashed in path order, each within what the earlier ones leave of the total, and never more than the total is read. |
| Evidence.VerifyEvidenceManifest | tools/dual_machine_cryptographic_evidence.py:609-702 | The verifier accepts exactly what the manifest and each file in turn allow, reports all required cases and the declared paths in the order of hashing, and reads at most 512 MiB of artifact bytes in a run, accepted or not. |
| Evidence.BudgetNeverBinds | tools/dual_machine_cryptographic_evidence.py:683-695 | On an archive that does not change, the shrinking budget rejects no file whose list fits the total. |
| Evidence.AcceptsIffCorrect | tools/dual_machine_cryptographic_evidence.py:609-702 | On an archive that does not change, at whatever pace reads arrive, acceptance is the set-level meaning: each required case once and rejected, referenced paths equal to declared ones, sizes within the total, every size and digest right. |
| EvidenceTerms.EntryExactly | tools/dual_machine_cryptographic_evidence.py:508-528 | An artifact entry is read exactly when it has the three members and no others: a local path, a size of at most 512 MiB, and 64 small hexadecimal digits. |
| EvidenceTerms.CaseExactly | tools/dual_machine_cryptographic_evidence.py:531-545 | An attack case is read exactly when it has the three members and no others: a required attack, the result `rejected`, and a local path. |
| EvidenceTerms.AcceptsExactly | tools/dual_machine_cryptographic_evidence.py:609-702 | A manifest is accepted exactly when its JSON says records that the files bear out: every item of the matrix a rejected attack on a declared artifact, every required attack in exactly one item, every artifact referred to, sizes within 512 MiB. |
| EvidenceTerms.EveryAttackRejected | tools/dual_machine_cryptographic_evidence.py:531-545 | So on a quiet archive, for each required attack: exactly one item carries it, says it was rejected, and names a file of the declared size and digest. |
| EvidenceTerms.ReportRises | tools/dual_machine_cryptographic_evidence.py:683-702 | The report names the declared paths, each once and in rising order. |
| Base64.DecodeEncode | tools/formal_release_manifest_security.py:132-143 | Decoding undoes encoding for every byte string. |
| Base64.StrictDecodeExactly | tools/formal_release_manifest_security.py:132-143 | Exactly the encoder's outputs for 1 to `maximum` bytes are accepted, each as the bytes it encodes. |
| Base64Terms.EncodeExactly | tools/formal_release_manifest_security.py:132-143 | The code as RFC 4648 describes it: groups of 24 bits read as four numbers of six bits, each the symbol of its place in the alphabet, and padding where the bits begin behind the last byte. |
| Base64.TlsPinsExactly | tools/prepare_dual_machine_release_materials.py:54-68 | Up to surrounding white space the validator accepts exactly the pins of 32-byte digests. |
| Base64Terms.StripExactly | tools/prepare_dual_machine_release_materials.py:60-61 | Stripping leaves what lies between the white space at both ends, and only that. |
| Base64.GeneratedPins | tools/prepare_dual_machine_release_materials.py:54-68 | Every generated pin is accepted, and two digests never share one. |
| Utf8.DecodeEncodeText | tools/formal_release_manifest_security.py:59-93 | Decoding UTF-8 undoes encoding for every text of Unicode scalar values (RFC 3629, section 3). |
| Utf8.CharWrites | tools/formal_release_manifest_security.py:59-72 | Each character is written in its shortest form, the bits behind the marks being its number (RFC 3629, section 3). |
| Utf8.FromBytesExactly | tools/formal_release_manifest_security.py:84-96 | Exactly the codes are read, each as its text: no overlong form, no surrogate. |
| JsonText.ParsePrint | tools/formal_release_manifest_security.py:59-93 | Parsing the sorted-key text of any dictionary, list, string, integer or constant gives the value back. |
| JsonText.ParsePlain | tools/formal_release_manifest_security.py:75-93 | Whatever text is read, duplicate keys refused, its value is one the printer is for. |
| JsonGrammar.FormExactly | tools/formal_release_manifest_security.py:59-72 | Every value has exactly one canonical text, and the printer writes it: no blanks, the shortest escapes, no idle zeros, items and fields joined by commas. |
| ManifestPayload.ValidateArtifacts | tools/formal_release_manifest_security.py:182-203 | The list passes exactly when it is not empty, within bounds, every entry is valid, and no role or path is repeated. |
| ManifestPayload.ValidateEvidenceSources | tools/formal_release_manifest_security.py:206-250 | The record passes exactly when every file lies under the declared root, no path is repeated, and the declared count and total are right. |
| ManifestPayload.ValidatePayload | tools/formal_release_manifest_security.py:253-282 | A payload passes exactly when its fields, versions, times, artifacts and evidence sources all do. |
| ManifestPayload.TupleOrder | tools/formal_release_manifest_security.py:146-149 | The version order is total and antisymmetric, and a version precedes its extensions. |
| PayloadTerms.TupleAtMostExactly | tools/formal_release_manifest_security.py:146-149 | A version is not above another exactly when it is a prefix of it or smaller at the first number where they differ. |
| PayloadTerms.PayloadExactly | tools/formal_release_manifest_security.py:253-282 | A payload is valid exactly when its members say so one by one: names, texts, versions as dotted decimals, counters, times, and every member of every entry of both lists. |
| PayloadTerms.RollbackRefused | tools/formal_release_manifest_security.py:261-266 | A payload whose minimum version lies above its release is refused, whatever else it says. |
| PayloadTerms.ArtifactsExactly | tools/formal_release_manifest_security.py:182-203 | The artifact list passes exactly when it has 1 to 256 entries of exactly four members, each with a role, a safe path, a size and a digest, no role and no path twice. |
| PayloadTerms.SourcesExactly | tools/formal_release_manifest_security.py:206-250 | The evidence record passes exactly when its members say at most 4096 files under one root, their number, the sum of their sizes, and no path twice. |
| SignedManifest.SignManifestPayload | tools/formal_release_manifest_security.py:285-298 | Signing gives the envelope of the canonical bytes of a valid payload, and nothing otherwise. |
| SignedManifest.VerifyManifestEnvelope | tools/formal_release_manifest_security.py:301-337 | The order of the envelope's checks and what they return. |
| SignedManifest.VerifySigned | tools/formal_release_manifest_security.py:285-337 | Verifying a signed payload with the key's public half returns the payload. |
| SignedManifest.OpensExactly | tools/formal_release_manifest_security.py:301-325 | An envelope opens to some bytes exactly when it seals them, with the exact fields, under the key's name, with a 64-byte signature that verifies. |
| SignedManifest.CanonicalBytesExactly | tools/formal_release_manifest_security.py:59-72 | The canonical bytes are the UTF-8 of the printed payload, at most 384 KiB of them. |
| SignedManifest.CanonicalExactly | tools/formal_release_manifest_security.py:59-93 | Bytes parse to a payload and are canonical for it exactly when they are what the payload prints. |
| SignedManifest.ValidIsPlain | tools/formal_release_manifest_security.py:253-282 | Every leaf of a valid payload has a checked type, so a valid payload whose objects are dictionaries holds no float. |
| SignedManifest.VerifiedExactly | tools/formal_release_manifest_security.py:301-337 | An envelope is accepted as a payload exactly when the payload is valid and the envelope seals its canonical bytes: each payload has one accepted byte string. |
| CommentStripping.QuoteCloseExactly | tools/verify_dual_machine_release_readiness.py:3669-3675 | A string literal ends at the only place where its body can end, so regular-expression backtracking changes nothing. |
| CommentStripping.BlockCloseExactly | tools/verify_dual_machine_release_readiness.py:3669-3675 | A block comment ends at the first terminator behind its opening, and is none when there is no terminator. |
| CommentStripping.StripPointwise | tools/verify_dual_machine_release_readiness.py:3638-3642 | Position by position: comment characters turn into blanks, their newlines stay, everything else is unchanged. |
| CommentStripping.LayoutKept | tools/verify_dual_machine_release_readiness.py:3638-3642 | Length and every newline position are kept. |
| CommentStripping.StaysUnquoted | tools/verify_dual_machine_release_readiness.py:3669-3675 | Where no quote could close a stray one, none can after stripping: removing comments opens no string. |
| CommentStripping.KindsKept | tools/verify_dual_machine_release_readiness.py:3669-3675 | Every string literal is a literal of the stripped text at the same place; what was a comment is code, and code stays code. |
| CommentStripping.LiteralsKept | tools/verify_dual_machine_release_readiness.py:3638-3642 | String literals are unchanged, letter by letter. |
| CommentStripping.StripIdempotent | tools/verify_dual_machine_release_readiness.py:3669-3675 | No comment is left and stripping again changes nothing, for every input. |
| CommentStripping.FoundIffOutsideComments | tools/verify_dual_machine_release_readiness.py:3690-3692 | A word without blanks is found in the stripped text exactly where the source has it outside every comment. |
| CommentTokens.HeadExactly | tools/verify_dual_machine_release_readiness.py:3669-3675 | At each place the scan takes the alternative of the pattern that matches there, with its length, and one character of code exactly when none does. |
| CommentTokens.KindsExactly | tools/verify_dual_machine_release_readiness.py:3669-3675 | However a source is cut into literals, comments and code that stand where the pattern has them, its kinds are those of the scan. |
| CommentTokens.TokensExist | tools/verify_dual_machine_release_readiness.py:3669-3675 | Every source can be so cut. |
| CommentTokens.StrippedExactly | tools/verify_dual_machine_release_readiness.py:3638-3642 | What stripping leaves, character by character of the tokens: blanks for comments, their newlines, and all else. |
| SoleBinding.TopLevelStringAssignment | tools/verify_dual_machine_release_readiness.py:197-309 | A text is returned exactly when some top-level statement assigns it to the name alone and the visitor notes no binding but that target. |
| SoleBinding.StoresExactly | tools/verify_dual_machine_release_readiness.py:208-238 | The statements whose constant is taken: an assignment to the name alone, plain or annotated, of a text. |
| SoleBinding.OwnExactly | tools/verify_dual_machine_release_readiness.py:243-304 | At each kind of node the visitor notes exactly what binds the name there: stored and deleted names, definitions, import aliases up to the first dot, handlers and patterns; only the import of every name goes unnoted. |
| SoleBinding.VisitedExactly | tools/verify_dual_machine_release_readiness.py:243-304 | Which children the visitor goes on to from each kind of node. |
| SoleBinding.UnnotedIsHidden | tools/verify_dual_machine_release_readiness.py:240-306 | Where the visitor notes nothing, only parameter annotations, lambda defaults and imports of every name can bind. |
| SoleBinding.ReliableExactly | tools/verify_dual_machine_release_readiness.py:197-309 | Every completed run of the module leaves the name at the returned text exactly when nothing the visitor passes by binds it from the assignment on. |
| SoleBinding.RebindingsUnseen | tools/verify_dual_machine_release_readiness.py:243-280 | Three concrete modules whose later rebinding the analysis accepts: in a parameter annotation, in a lambda default, and by `import *`. |
| LfsPointer.ParseExactly | tools/check_private_artifact_source_boundary.py:242-263 | A pointer is read as a digest and size exactly when it is ASCII, the digest is 64 lower-case hexadecimal digits, the size is positive, and its three lines print them. |
| LfsBytes.BytesExactly | tools/check_private_artifact_source_boundary.py:242-263 | Which bytes are a pointer: three printed lines, each with one of nine line ends, the last with or without. |
| LfsPointer.ParsePrint | tools/verify_no_plaintext_model_assets.py:271-276 | What this tool prints the other reads back, also with CRLF line ends, for every digest and exactly the positive sizes. |
| LfsBytes.PrintedBytes | tools/verify_no_plaintext_model_assets.py:271-276 | The printed pointer, byte for byte. |
| LfsPointer.PrintedPointersDiffer | tools/verify_no_plaintext_model_assets.py:312-324 | Two digest and size pairs never share a printed pointer. |
| SourceTree.IterSourceFiles | tools/verify_no_plaintext_model_assets.py:248-268 | The worklist loop ends and delivers the depth-first walk of the tree, up to its failure if it fails. |
| SourceTree.IterTrackedFiles | tools/verify_no_plaintext_model_assets.py:228-247 | With a list of tracked paths, each must be a regular file, and each is delivered in its place. |
| SourceTree.Turn | tools/verify_no_plaintext_model_assets.py:249-268 | One turn of the worklist keeps the walk still to be done and shrinks the work left. |
| SourceTreeLaws.WalkExactly | tools/verify_no_plaintext_model_assets.py:248-268 | The walk fails exactly when a link, an entry that cannot be examined or a folder that cannot be listed lies outside the skipped folders. Otherwise it delivers exactly the regular files outside them, each path once. |
| SourceTreeLaws.EntriesFall | tools/verify_no_plaintext_model_assets.py:252-257 | The entries of a folder are gone through by falling names. |
| LockedBytes.IndexBySize | tools/verify_no_plaintext_model_assets.py:112-165 | The index holds a digest under a size exactly when some row has both. |
| LockedBytes.SizeFirstExactly | tools/verify_no_plaintext_model_assets.py:330-344 | The verdict by size and index is the one of hashing everything and comparing with every row whenever the announced size is true; otherwise it refuses exactly the locked sizes. |
| LockedBytes.ToolsAgreeExactly | tools/check_private_artifact_source_boundary.py:430-441 | This tool hashes without comparing how much it read. The two tools judge alike unless the announced size is locked, other than that is read, and its digest belongs to no row of that size; with true sizes both compare with every row. |
| LockedBytes.ScanSource | tools/verify_no_plaintext_model_assets.py:279-353 | The scan passes exactly when the files were all delivered, every one passes and every declared model is present; its two counts are those of the files and of the files hashed. |
| LockedBytes.ScanArchive | tools/verify_no_plaintext_model_assets.py:365-400 | The archive passes exactly when every name is safe and distinct and every file is readable, allowed by name and passed by the index; its counts are right. |
| ModelNames.RefusedExactly | tools/verify_no_plaintext_model_assets.py:169-175 | A name is refused exactly when it ends in `.onnx` or is one of four beginnings, letters, digits, dots, hyphens and underscores, and `w8a16.so`, in any case, with the letters that a case-insensitive pattern adds. |
| ModelNames.EntryPathExactly | tools/verify_no_plaintext_model_assets.py:356-378 | The path of an archive entry is that of its name without the slashes at its end, which mark a folder. |
| LockedBytes.HonestArchive | tools/verify_no_plaintext_model_assets.py:389-399 | With true sizes an archive passes exactly when no file in it has the size and digest of any row, besides the checks on names. |
| LockedBytes.TreeVerdict | tools/verify_no_plaintext_model_assets.py:248-353 | From the tree itself to the verdict, without walk or index: no trouble outside the skipped folders, every file there clean by the rows, every declared model among them. |
| SafeIdle.OrderIrrelevant | tools/final_safe_idle_evidence.py:243-250 | Events with distinct (timestamp, sequence) pairs may be logged in any order: the whole evaluation is the same. |
| SafeIdle.IrrelevantDropped | tools/final_safe_idle_evidence.py:49-66 | Dropping events outside the relevant names changes no check, and no metric but the event count. |
| SafeIdle.LastIsLatest | tools/final_safe_idle_evidence.py:244-289 | The last event the sorted scan finds of a kind is one that no other event of that kind is ordered behind. |
| SafeIdle.QuietExactly | tools/final_safe_idle_evidence.py:316-322 | The reactivation check holds exactly when some latest stop is followed, at later times, by no reactivation. |
| SafeIdle.OneMoreEvent | tools/final_safe_idle_evidence.py:316-322 | One more event that is no stop, logged anywhere, breaks that check exactly when it reactivates at a later time than the last stop. |
| SafeIdle.LateReactivationSeen | tools/final_safe_idle_evidence.py:206-227 | From a log where every check holds, a reactivation later than all its events makes the check fail. |
| SafeIdle.SameMillisecondUnseen | tools/final_safe_idle_evidence.py:316-322 | A reactivation ordered after the stop but within its millisecond goes unseen. |
| SafeIdle.SafeExactly | tools/final_safe_idle_evidence.py:230-382 | For distinct keys, every check holds exactly for the traces that end safely, said without sorting: latest route, trigger, phase, stop and close restored, last health idle, quiet after the stop. |
| IdleTerms.SaysExactly | tools/final_safe_idle_evidence.py:85-92 | A detail text has a token exactly when it says `key=value` as a word of its own, with white space or nothing behind. |
| IdleTerms.MetricExactly | tools/final_safe_idle_evidence.py:95-101 | A metric is the last number said of its key, sign and all digits read. |
| IdleTerms.ReactivationExactly | tools/final_safe_idle_evidence.py:206-227 | Which events reactivate: four by name, phase changes to starting or running, and health reports that say running or an output above zero. |
| IdleTerms.AcceptanceEndExactly | tools/final_safe_idle_evidence.py:195-203 | The acceptance ends with the latest of the routes that are there, and at 0 when none is. |
| IdleTerms.SafeInWords | tools/final_safe_idle_evidence.py:230-382 | All fifteen checks hold exactly when every route is bound, the screen shows its three facts, and the log has a safe ending: the latest event of each kind, said in words, behind all routes, and no reactivation after the stop. |
| IdleTerms.TimesExactly | tools/final_safe_idle_evidence.py:383-411 | The reported times are those of the latest route, trigger, closing and stop, and of the latest health report behind them. |
| IdleTerms.CountsExactly | tools/final_safe_idle_evidence.py:243-322 | How many events lie behind the acceptance, and how many of them reactivate after the stop. |
| Acceptance.ReleaseBlockers | tools/run_formal_release_acceptance.py:710-750 | The blockers are exactly the stages that ran and failed, each once and in the order of the report. |
| Acceptance.ReleaseNextActions | tools/run_formal_release_acceptance.py:872-883 | One action for each blocked stage, in the order of the blockers. |
| Acceptance.WriteReport | tools/run_formal_release_acceptance.py:945-1036 | A report lists as blockers and actions the stages that failed, in order, and none exactly when every command in it passed; it raises, and what it leaves on disk, exactly as reading the device report and the write go. |
| Acceptance.BuildRelease | tools/run_formal_release_acceptance.py:1110-1204 | The build part of a run: whether it goes on, reports a failure or raises, and what it leaves. |
| Acceptance.Preflights | tools/run_formal_release_acceptance.py:1206-1281 | From the APK preflight to the gate before the installer. |
| Acceptance.Finish | tools/run_formal_release_acceptance.py:1283-1408 | From the installer to the interim report. |
| Acceptance.Package | tools/run_formal_release_acceptance.py:1409-1517 | Behind an interim report that says ok: packaging, its summaries, and the last report. |
| Acceptance.RunAcceptance | tools/run_formal_release_acceptance.py:1039-1517 | Every run: the installer runs only behind both preflights (and a signed build); the exit code is 0 exactly when everything goes right, and else 7, 4, 6, 5, 2 or 3 by the first gate not passed, 4 for the packager, none for a run that raises; ok reports have no blockers and no actions; what is left on disk says ok exactly when `LeavesOk`, every raise covered; the packager is handed only a report its checks accept; failures name a blocker, except when the installer printed no evidence. |
| Acceptance.OkReportExactly | tools/run_formal_release_acceptance.py:1039-1517 | A report that says ok is left exactly by the runs that exit with 0 and by those that raise over an earlier report that says ok, or behind an interim one. |
| Acceptance.RejectionLeavesInterim | tools/run_formal_release_acceptance.py:489-502 | An input of the second kind: the packager fails and names a report that is no object, and reading it raises. |
| Acceptance.TimeoutLeavesEarlierReport | tools/run_formal_release_acceptance.py:1206-1212 | An input of the first kind: the APK preflight times out over the report of an earlier run. |
| Acceptance.PackagerAccepts | tools/package_formal_release_bundle.py:560-712 | The report handed to the packager passes its checks, and its installer command does exactly when the device serial clashes with no option. |
| InstallerCommand.BuildInstallCommand | tools/run_formal_release_acceptance.py:276-332 | The appends and the loop over route arguments build the command line. |
| InstallerCommand.ShownCommand | tools/run_formal_release_acceptance.py:662-667 | Redaction touches the command only when the serial is `--private-key`, and then only what follows it. |
| InstallerTerms.CommandSpelled | tools/run_formal_release_acceptance.py:276-332 | The whole command word by word: every option, its value and its place, the seven evidence paths in order. |
| InstallerTerms.RedactSpelled | tools/run_formal_release_acceptance.py:662-667 | The word behind the first `--private-key` is covered, and nothing else. |
| InstallerTerms.PassesIffAgrees | tools/package_formal_release_bundle.py:626-712 | A command built for one request, whose serial clashes with no option, passes the check against a report of another exactly when the two agree: every path resolves alike, serial and switches are equal. |
| Letterbox.PlacedInside | android_inference_benchmark/tools/build_qnn_calibration_inputs.py:22-30 | For every picture size the scaled picture lies inside the canvas, is centred to within a pixel, and fills the canvas in one direction. |
| Letterbox.PlacedInProportion | android_inference_benchmark/tools/build_qnn_calibration_inputs.py:20-24 | The longer side fills the canvas; the shorter one keeps its proportion, rounded to the nearest pixel and at least one. |
| Letterbox.Paint | android_inference_benchmark/tools/build_qnn_calibration_inputs.py:27-30 | Overwriting the rectangle in place leaves the scaled picture there and grey everywhere else. |
| Letterbox.PlaneHolds | android_inference_benchmark/tools/build_qnn_calibration_inputs.py:31-32 | Where each channel of each canvas pixel stands among the float planes. |
| Letterbox.ByteOf | android_inference_benchmark/tools/build_qnn_u8_runtime_input.py:46-51 | The transposition takes each byte from the plane value of its own row, column and channel. |
| Letterbox.BytesArrive | android_inference_benchmark/tools/build_qnn_u8_runtime_input.py:30-51 | The planes of a 320-pixel canvas are accepted, and byte for byte the phone gets the canvas's channels, red first: nothing is lost in scaling down and back. |
| Letterbox.BytesSpelled | android_inference_benchmark/tools/build_qnn_u8_runtime_input.py:30-51 | Red, green and blue of each of the 320 by 320 pixels stand at three successive places, row by row. |
| InstallerCommand.AcceptedExactly | tools/package_formal_release_bundle.py:626-712 | Of the commands a run builds, exactly those whose serial is not mistaken for an option and hides no flag pass the packager's check. |

## Left out

- Floating point: overlaps, confidences and averages are exact reals; the six-digit rounding is exact and half-even.
- Reading label, prediction and trace files, their numeric parsing and range checks, the order of the sample lists in the summary, and its Markdown form.
- SplitRewriter.RewriteStaticSplits: loading, saving and checking the ONNX file, node domains, omitted inputs and outputs, subgraphs and element types are not modelled; a node's name and domain play no part in its meaning.
- SplitPreservation.RewritePreservesMeaning: asks that names of the graph and its feeds do not start with the generated prefix and that names are assigned once.
- ArtifactLock.LoadLock: reading the lock's text is not modelled (its size, byte-order mark, and duplicate keys, of which the last counts), nor a floating zero as the owner's refusal; which letters count as lower case or digits is left open.
- Staging.Directories.StageArtifacts: directories are maps from paths to contents; renames are atomic and the exception handler itself neither crashes nor fails half-way; permissions, links and verify-only runs are not modelled.
- Evidence.VerifyEvidenceManifest: works on the parsed manifest; secure handles, links and devices are part of which files can be opened; SHA-256 is a function left open.
- JsonText.ParsePrint: no floats, no lone surrogates, no limit on the number of digits or the depth of nesting.
- ManifestPayload.ValidatePayload: which texts are UTC times is left open.
- SignedManifest.VerifySigned: Ed25519 (RFC 8032) is a scheme left open with its one law, that a signature verifies under its own key.
- CommentStripping.StripIdempotent: the C-like suffixes only; the CMake and Python branches of the same function are not modelled.
- SoleBinding.ReliableExactly: `global` and `nonlocal`, calls of functions that rebind module names, `exec`, writes through the module's dictionary, and type parameters are outside the statement language.
- LockedBytes.ScanSource: asking Git for the tracked paths, and this tool's own reading of the lock's header and rows, are not modelled; of the other scanner only its pointer parser and its verdict on bytes are.
- SafeIdle.SafeExactly: physical route evidence enters as whether it matches, is valid and when it ends; the screen as three facts; timestamps and sequences are integers, digits in details are ASCII.
- Acceptance.RunAcceptance: only the installer's command line is built; texts printed by commands enter as what is read from them; commands leave the report's place alone, and the run's own printing does not raise.
- InstallerCommand.AcceptedExactly: paths are resolved alike by both tools, which holds for absolute paths; the packager's checks on run parameters, timeouts, hashes and evidence are not modelled.
- Letterbox.BytesArrive: scaling a picture is a function left open; float32 rounding, reading and writing files and collecting images are not modelled.
- The C++ and Java runtime, whose code the Python tools only search for words.
- Key generators, report texts, command-line parsing, Windows handles, subprocesses and Git.
