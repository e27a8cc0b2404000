# imagextract, modelled in Dafny

imagextract is a macOS command-line tool that takes the path of one image,
creates an output directory named after it, copies the image there and runs
four detectors over it, one after the other:

- text recognition (OCR), whose recognized lines go to `OCR_RecognizedText.txt`;
- face detection, whose enlarged face crops go to `Face0.png`, `Face1.png`, …;
- object detection with a YOLO model, whose object crops go to
  `Object0.png`, … and whose detections go to the manifest
  `YOLO_ObjectClassificationResults.json`;
- whole-image classification with a ResNet model, whose labels go to
  `RESNET_ObjectClassificationResults.txt`.

This project models what turns the detectors' answers into those files: the
flip of Vision's normalized boxes into pixel rectangles, the 25% face
enlargement and the cut to the image, the face and object counters and the
file names built from them, the manifest records, the two text reports, the
argument and extension checks, the output directory name, and the order of
the run. The detectors' answers, the image size, whether a crop succeeds and
how a number is printed are inputs.

Modules, one per file:

- `Wrappers` (wrappers.dfy): `Option`.
- `Geometry` (geometry.dfy): normalized boxes and CGRect as exact reals;
  `standardized`, `insetBy`, `intersection`; the flip; the face crop rectangle.
- `Artifacts` (artifacts.dfy): the files the tool writes, the manifest
  record, and the decimal file names `Face<n>.png` and `Object<n>.png`.
- `TextReports` (text_reports.dfy): the OCR and ResNet handlers.
- `Cropping` (cropping.dfy): the crops taken from a list of candidate
  rectangles, shared by the face and object stages.
- `Faces` (faces.dfy): the face handler and `saveCroppedFace`.
- `Objects` (objects.dfy): the YOLO handler, `saveYOLOObjectScreenshot` and
  the manifest.
- `Paths` (paths.dfy): `isValidExtension`, `getFilenameWithoutExtension`,
  the argument count.
- `Pipeline` (pipeline.dfy): `processImageAndSaveResults` and `main`.

Each handler loop is a method whose result is proved equal to a
specification function, or, for the face handler, to a closed form over the
crops taken. The properties are proved as lemmas about those functions.

Modelling choices that a reader of the source should know:

- Whether `CGImage.cropping(to:)` succeeds for a rectangle is the parameter
  `canCrop`. A null rectangle (`None`) never yields a crop.
- The face handler computes each observation's crop rectangle before its
  loop (`Faces.FaceCandidates`). The source computes it inside the loop.
  The computation is pure, so the files written are the same.
- A normalized box may have a negative width or height. The source reads
  its size through the `width` and `height` getters, which return the
  standardized, non-negative size, while the origin is read as it is.
  `Geometry.PixelRect` and `Objects.RecordOf` do the same, so the flipped
  rectangle is always standard.
- `cropYOLOImage` rebuilds a rectangle from the origin and the `width` and
  `height` getters. The flipped rectangle is standard, so the rebuilt one
  is the same, and the object crop rectangle is the flipped rectangle
  (`Geometry.ObjectCropRect`).
- A request that fails is `None`: an error in the completion handler,
  results of an unexpected type, or a model that cannot be created. That
  stage then writes nothing.
- The YOLO numbering follows the code as written. A record takes the current
  `objectCount` before its crop is attempted, and the counter only advances
  when the crop is saved. So after a failed crop, the next record carries the
  same number and the same file name (`Objects.YoloFailedCropSharesFileName`).

## Model

| member | source | states |
|---|---|---|
| `Geometry.Standardized` | imagextract/main.swift:73-76 | a standardized rectangle has non-negative size and spans the same x and y intervals as the original |
| `Geometry.InsetBy` | imagextract/main.swift:73-74 | `insetBy` gives a rectangle exactly when neither side of the standardized rectangle would become negative, and that rectangle is standard |
| `Geometry.Intersection` | imagextract/main.swift:76 | a non-null intersection lies inside both rectangles |
| `Geometry.IntersectionNullIffDisjoint` | imagextract/main.swift:76 | the intersection is null exactly when no point lies in both closed rectangles |
| `Geometry.IntersectionIsGreatest` | imagextract/main.swift:76 | every point of both rectangles lies in their intersection |
| `Geometry.FaceCropRect` | imagextract/main.swift:63-76 | the face crop rectangle, when not null, lies inside the image `[0,W]x[0,H]` for any box, even one outside the unit square |
| `Geometry.FlipInsideImage` | imagextract/main.swift:63-69 | a box inside the unit square flips to a rectangle inside the image |
| `Geometry.FlipFullUnitBox` | imagextract/main.swift:223-230 | the whole unit square flips to `{0,0,W,H}` |
| `Geometry.FlipFullHeight` | imagextract/main.swift:225-230 | a box of full height starting at y = 0 flips to pixel y = 0 and full pixel height |
| `Geometry.PixelRect` | imagextract/main.swift:225-230 | the flip gives a standard rectangle whose x and width are the box's x and non-negative width scaled by W, whose height is the box's non-negative height scaled by H, and whose bottom edge is the box's bottom edge y flipped, `(1 - y) * H` |
| `Geometry.FlipRoundTrip` | imagextract/main.swift:223-230 | for a non-empty image the flip loses only the sign of the size: normalizing the pixel rectangle gives back the box with non-negative width and height, and so the box itself when its size is non-negative |
| `Geometry.FlipIgnoresSizeSign` | imagextract/main.swift:66-69 | a box and the same box with its size negated flip to the same rectangle, as the size is read through the standardizing getters |
| `Geometry.FaceEnlargement` | imagextract/main.swift:71-74 | the enlarged face rectangle is never null, has 1.25 times the width and height of the face rectangle, and has the same centre |
| `Geometry.FaceCropUnclipped` | imagextract/main.swift:73-76 | when the enlarged rectangle already lies in the image, the cut to the image leaves it unchanged |
| `Geometry.FaceCropExample` | imagextract/main.swift:63-76 | in a 500x400 image the box {0.4,0.5,0.2,0.2} gives the face rectangle (200,120,100,80) and the crop (187.5,110,125,100) |
| `Artifacts.DigitChar` | imagextract/main.swift:359 | each digit of an interpolated number is a character '0' to '9' |
| `Artifacts.DecimalShape` | imagextract/main.swift:359 | the printed number is a non-empty string of digits, one digit long exactly below ten, with no leading zero |
| `Artifacts.DecimalInjective` | imagextract/main.swift:301 | different numbers print differently |
| `Artifacts.DecimalValue` | imagextract/main.swift:359 | reading the printed digits back as a decimal number gives the number printed |
| `Artifacts.FaceName` | imagextract/main.swift:359 | the face file name is `Face`, then only digits, then `.png` |
| `Artifacts.ObjectName` | imagextract/main.swift:301 | the object file name is `Object`, then only digits, then `.png` |
| `Artifacts.FaceNameInjective` | imagextract/main.swift:359 | different face numbers give different file names |
| `Artifacts.ObjectNameInjective` | imagextract/main.swift:301 | different object numbers give different file names |
| `TextReports.PerformOcr` | imagextract/main.swift:100-109 | the handler writes the fold of the regions' top candidates, each followed by a newline, to `OCR_RecognizedText.txt`, and writes at most that one file |
| `TextReports.OcrText` | imagextract/main.swift:100-105 | the recognized text is empty, so no file is written, exactly when no region has a candidate; a non-empty text ends with a newline |
| `TextReports.OcrTextAppend` | imagextract/main.swift:101-105 | the text of two runs of regions is the concatenation of their texts |
| `TextReports.OcrTextSingle` | imagextract/main.swift:102-103 | one region contributes its top candidate and a newline, or nothing when it has no candidate |
| `TextReports.PerformResnetClassification` | imagextract/main.swift:157-164 | the handler writes the fold of the report lines to `RESNET_ObjectClassificationResults.txt`, and writes at most that one file |
| `TextReports.ResnetText` | imagextract/main.swift:157-160 | the report holds at least the 23 fixed characters of each label's line, and a non-empty report ends with a newline |
| `TextReports.ResnetTextEmpty` | imagextract/main.swift:157-164 | the report is empty, so no file is written, exactly when there is no label |
| `TextReports.ResnetTextAppend` | imagextract/main.swift:158-160 | the report of two runs of labels is the concatenation of their reports |
| `TextReports.ResnetTextSingle` | imagextract/main.swift:159 | a label's line is `Class: <id>, Confidence: <confidence x 100>%` and a newline |
| `Cropping.CropsTaken` | imagextract/main.swift:78-80 | at most one crop per candidate, and each crop is a non-null candidate whose crop succeeds |
| `Cropping.CropsTakenAppend` | imagextract/main.swift:61-80 | the crops of a longer run of observations extend those of a shorter run, in observation order |
| `Cropping.CropsTakenSingle` | imagextract/main.swift:78-80 | one observation adds its crop when the rectangle is not null and the crop succeeds, and nothing otherwise |
| `Cropping.CropsTakenAllSucceed` | imagextract/main.swift:61-80 | when every crop succeeds, crop j comes from observation j |
| `Cropping.CropsTakenAt` | imagextract/main.swift:78-79 | a successful observation's crop gets the number of crops taken before it |
| `Cropping.CropsTakenStep` | imagextract/main.swift:232-233 | one more observation adds one crop when its crop succeeds and none otherwise |
| `Cropping.CropsTakenMonotone` | imagextract/main.swift:232-233 | the number of crops taken never decreases along the observations |
| `Faces.FaceCandidates` | imagextract/main.swift:61-76 | one crop rectangle per observation, in order, each inside the image when not null |
| `Faces.FaceCrops` | imagextract/main.swift:61-80 | at most one face crop per observation, each inside the image and each one that succeeds |
| `Faces.SaveCroppedFace` | imagextract/main.swift:358-363 | the crop is saved as `Face<count>.png` and the counter advances by one |
| `Faces.SaveFaceCrops` | imagextract/main.swift:60-80 | the files are `Face0.png` to `Face(k-1).png` for the k crops taken, file j holding crop j, with pairwise different names; failed crops use no number |
| `Faces.PerformFaceDetection` | imagextract/main.swift:51-87 | the handler writes exactly the face crops in observation order, file j named `Face<j>.png`, with pairwise different names |
| `Faces.FaceCropsAllSucceed` | imagextract/main.swift:60-80 | when every crop succeeds, `Face<j>.png` is the crop of face j |
| `Objects.RecordOf` | imagextract/main.swift:210-219 | a record carries the given number, the top label's name, its confidence times 100, the box as origin x, origin y and the non-negative width and height, and the file name `Object<number>.png` |
| `Objects.RecordBoxIsCropRect` | imagextract/main.swift:217-230 | the box a record stores flips to exactly the rectangle its observation asks to crop |
| `Objects.YoloStepExtends` | imagextract/main.swift:207-235 | one turn of the loop only appends: one record exactly for a labelled observation, one crop exactly when its crop also succeeds, and `objectCount` grows by the number of crops added |
| `Objects.Labeled` | imagextract/main.swift:207-208 | the observations kept are no more than those given, and each has a label |
| `Objects.YoloFold` | imagextract/main.swift:204-236 | after any run of observations, `objectCount` is the number of crops saved, crop k is named `Object<k>.png`, and there is one record per labelled observation |
| `Objects.SaveYoloObjectScreenshot` | imagextract/main.swift:299-307 | the crop is saved as `Object<objectCount>.png` and the counter advances by one |
| `Objects.PerformYoloObjectClassification` | imagextract/main.swift:196-241 | the handler writes the crops, then the manifest of all records when there is one, as the fold describes |
| `Objects.YoloCropsSpec` | imagextract/main.swift:223-234 | the crops saved are those of the labelled observations whose crop succeeds, in order, crop k named `Object<k>.png`, and `objectCount` is their number |
| `Objects.YoloRecordsSpec` | imagextract/main.swift:207-221 | one record per labelled observation, in order, carrying the top label's name, its confidence x 100, the box as `[x, y, w, h]` with w and h made non-negative, the number of earlier successful crops, and `Object<number>.png` |
| `Objects.YoloNumberingStep` | imagextract/main.swift:205-234 | the first record is numbered 0, and each next number is the previous one plus one after a successful crop and the same after a failed one |
| `Objects.YoloNumbersMonotone` | imagextract/main.swift:205-234 | record numbers never decrease and never exceed the final `objectCount` |
| `Objects.YoloSavedCropNamed` | imagextract/main.swift:213-233 | a record whose crop succeeds names the file that holds the crop of its own rectangle |
| `Objects.YoloFailedCropSharesFileName` | imagextract/main.swift:213-234 | after a failed crop, the next record has the same number and file name |
| `Objects.YoloAllCropsSucceed` | imagextract/main.swift:205-234 | when every crop succeeds, record j is numbered j and there is one crop per record |
| `Objects.LabeledAppend` | imagextract/main.swift:207-208 | filtering two runs of observations gives the filtered first run followed by the filtered second: the kept observations stay in return order |
| `Objects.LabeledSingle` | imagextract/main.swift:207-208 | a single observation is kept, once, exactly when it has a label |
| `Objects.LabeledMembers` | imagextract/main.swift:207-208 | an observation is kept exactly when it is one of those given and has a label |
| `Objects.LabeledEmpty` | imagextract/main.swift:207-208 | no observation is kept exactly when none has a label |
| `Objects.YoloManifestWritten` | imagextract/main.swift:238-240 | the manifest, holding all records, is written after the crops exactly when some observation has a label |
| `Objects.YoloCropNamesDistinct` | imagextract/main.swift:299-307 | the object crops are saved under pairwise different names |
| `Paths.ArgsAccepted` | imagextract/main.swift:465 | the arguments are accepted exactly when one argument, the image path, follows the program name |
| `Paths.FilenameWithoutExtension` | imagextract/main.swift:419-422 | the directory name is a prefix of the last path component, non-empty and strictly shorter when there is an extension |
| `Paths.IsValidExtension` | imagextract/main.swift:432-436 | a path without an extension is accepted only if the bare dot `.` is an allowed extension; with the five extensions of `main`, `Paths.ValidExtensionIff` gives the full answer |
| `Paths.LowerChar` | imagextract/main.swift:434 | lower-casing maps 'A' to 'Z' to 'a' to 'z' and leaves every other character alone |
| `Paths.SplitRoundTrip` | imagextract/main.swift:419-422 | the last component is the directory name, a dot and the extension when there is one, and the directory name alone otherwise; a non-empty last component gives a non-empty directory name |
| `Paths.ValidExtensionIff` | imagextract/main.swift:432-436 | a path is accepted exactly when its lower-cased extension is jpg, jpeg, png, tiff or pdf, and a path without extension is rejected |
| `Paths.ExtensionLower` | imagextract/main.swift:433-434 | lower-casing a path keeps whether it has an extension and lower-cases the extension |
| `Paths.ValidExtensionCaseInsensitive` | imagextract/main.swift:432-436 | the extension check gives the same answer for a path and its lower-cased form |
| `Paths.ComposeSplit` | imagextract/main.swift:419-422 | the inverse of the split: for any directory prefix ending in '/', a stem without '/' and an extension without '/' or '.', the path `<dir><stem>.<ext>` has last component `<stem>.<ext>`, extension `<ext>` and directory name `<stem>` (so `scan.v2.pdf` gives `scan.v2`) |
| `Paths.UpperCaseJpgAccepted` | imagextract/main.swift:432-436 | any `<dir><stem>.JPG`, such as `photo.JPG`, is accepted and gives the directory `<stem>` |
| `Paths.HiddenFileRejected` | imagextract/main.swift:432-436 | a hidden file `<dir>.<ext>`, such as `/pictures/.jpg`, has no extension, is rejected, and would give the directory `.<ext>` |
| `Pipeline.ProcessImageAndSaveResults` | imagextract/main.swift:16-47 | the files written are, in order, the copy of the image and the files of OCR, faces, objects and classification, and nothing when the image cannot be loaded |
| `Pipeline.RunTool` | imagextract/main.swift:462-484 | a usage error exactly when the argument count is not 2; an extension error exactly when the count is 2 and the extension is not allowed; the image is processed exactly when both checks pass and the directory named after the image is available |
| `Pipeline.TraceInStageOrder` | imagextract/main.swift:27-45 | the files are written stage by stage and the stage order never goes back |
| `Pipeline.TraceStartsWithOriginal` | imagextract/main.swift:16-28 | nothing is written exactly when the image cannot be loaded; otherwise the first file is the copy of the image under its own last path component, and no later file belongs to the copying stage |
| `Pipeline.StageFailureIsEmptyResult` | imagextract/main.swift:51-58 | a stage whose request fails writes the same as a stage whose detector finds nothing |
| `Pipeline.OnlyClassification` | imagextract/main.swift:16-47 | an image where only the classifier finds one label produces the copy and a one-line ResNet report |

## Left out

- Vision and CoreML inference, and model loading in `createImageClassifier`, including its `fatalError` when the model file is missing. These are foreign calls: the detectors' answers are inputs, and a failed request is `None`.
- `resolveExecutablePath`. It depends on argv, the working directory, `PATH` and the filesystem, and ends in `fatalError`.
- Image decoding and encoding through NSImage, CGImage, TIFF and PNG (`loadImage`, `getCGImage`, `saveImageToSubdir`). A load or conversion failure is an image of `None`. A write that fails after its file name is chosen is not modelled: a crop counts as saved once `cropping(to:)` succeeds, as the counters in the source do.
- `CGImage.cropping(to:)`, including its rounding to whole pixels, is the parameter `canCrop`.
- The filesystem: `createSubdirectory` is the input `directoryCreated`, and the Documents directory is not modelled. Files are modelled as the sequence written, so one file replacing another of the same name is not modelled (for example an input image named `Face0.png`).
- The JSON layout of the manifest: the manifest is its sequence of records.
- The printing of the confidence in the ResNet report is the parameter `format`.
- Float and Double rounding: CGFloat and the confidences are exact reals.
- The console messages and the callback style of the Vision requests: each stage is a synchronous fold over its observations.
- `Paths.LowerChar` and `Paths.Lower`: lowercase only the ASCII letters, not all of Unicode. No answer changes for the five allowed extensions, which are ASCII.
- `Paths.LastComponent`: in Foundation an empty path resolves against the working directory, and a path made only of slashes is the root, whose last component is `/`. Here both give an empty last component.
- `Geometry.ObjectCropRect` has no contract of its own. It is the flip, and the flip's lemmas are stated on `Geometry.PixelRect`.
